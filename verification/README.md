# Verified models of the library's core

A mobile networking and storage library: a SQLite cursor window filled through JNI, a staggered parallel connector, a
message queue, byte buffers and the TCP client on top of them, text codecs, a netlink reader and a thread wrapper. This
project models their logic in Dafny and proves what the code promises. `dafny verify dfyconfig.toml` checks all of it.

Code that works in place is modelled in place: classes with the source's fields, arrays for buffers, loops for loops.
Each such method is proved against a specification, and what the library promises is proved about the specification, for
all inputs, all runs and all interleavings.

| files | what they model |
|---|---|
| `Bytes`, `WindowLayout`, `CursorWindow` | the window: a bump allocator in one flat byte array that refines a table of cells |
| `FillWindow` | copying query rows into the window, with restart, busy retries and row counting |
| `Sockets`, `Channel`, `TcpClientFsm`, `MultiConnect` | the operating system as a nondeterministic object; the two buffers of a connection; the connection state machine; `TryConnect` |
| `Utf8`, `Utf8Malformed`, `InetText`, `Base64` | the codecs, and what becomes of bytes that are not UTF-8 |
| `InetAccepted`, `InetAccepted6`, `InetLimits` | which texts the address parsers accept and what they mean, and where the IPv6 parser fails |
| `MsgQueueSpec`, `MsgQueueCalls`, `MsgQueueSent`, `MsgQueue` | the message queue as a step system, which handlers are called and what exit means, what is kept and cancelled, and the object that takes the steps |
| `AutoBuffer`, `TcpClientSpec`, `TcpClient` | byte buffers, the TCP client's write queue, the state machine's two buffers |
| `IfAddrsLayout`, `IfAddrs`, `InterfaceList` | `getifaddrs`: sizing and filling of each entry's block, the netmask, the list |
| `ThreadLife` | the thread object's reference count, join and detach |

## Where code and promise differ

- IPv6 text does not always survive. `inet_ntop_v6` unmarks other zero runs only when the longest is longer than one, so
  two or more isolated zero groups print as several `::`. `InetText.RoundTrip6` says exactly when the text parses back,
  and `InetText.TwoZerosFail` why it does not otherwise; `InetLimits.TwoIsolatedZeros` is such an address.
- The IPv6 parser's write position leaves the address when at least eight colons follow the first `::` and a group comes
  next. `InetLimits.OutsideExactly` says exactly when, `InetLimits.NineGroups` gives a text, and `InetLimits.StaysInside`
  what a caller can check.
- The IPv6 parser accepts texts of up to fifteen groups, and those behind `::` overwrite those in front of it
  (`InetAccepted6.LostGroups` says exactly when; `InetAccepted6.FifthIsLost` is a text of nine). It also accepts one
  leading colon, white space and signs in front of a group, and anything between a dotted tail's `ffff` and its colon
  (`InetAccepted6.Accepts6`, `InetAccepted6.AcceptsDotted`).
- `inet_ntop_v6` writes no terminator behind a trailing `::`; `InetText.InetNtopV6` says for which addresses, and
  `InetLimits.AllZeros` is one.
- A wait of 2^31 milliseconds or more is cut to 32 bits, and the next attempt starts at once (`MultiConnects.DueExact`,
  `MultiConnects.StartedAtOnce`).
- A wait that has been over for more than 2^31 milliseconds counts as running again (`MultiConnects.DueNoMore`).
- A connect time-out of 2^31 milliseconds or more is cut the same way, and the attempt ends at its first quiet look
  (`TcpClientFsm.TimeLeftExact`, `TcpClientFsm.TimedOutAtOnce`).
- Overlong UTF-8 forms are decoded (`Utf8Malformed.OverlongZero`), and a form that the end cuts off is replaced byte by
  byte though one broken off elsewhere is replaced as one (`Utf8Malformed.CutOffReplaced`, `BrokenReplaced`).
- Base64 texts whose unused bits are not zero decode but do not re-encode to themselves (`Base64.Reencode`,
  `Base64.UnusedBits`).
- The window's allocator grants requests whose 32-bit end offset wraps around (`CursorWindows.BeyondExact`); the rows and
  puts that would write past the buffer then end in a status of their own, `Outside`.
- A wait can end for a message no handler ever had and nobody cancelled: `quit` came before it was taken up
  (`MsgQueueCalls.DroppedRun`; exactly when, `MsgQueueCalls.UnhandledExactly`). It happens to one message at most.

## Assumptions

- A window's buffer is smaller than 2^31 bytes (its size is a Java `int`) and has room for the header and a chunk. Words
  are little-endian. A double is its eight bytes.
- The query is a function from step numbers to results with finitely many rows; sqlite's values are well formed and
  shorter than 2^31 bytes, and its column counts leave a row's directory below 2^31 bytes.
- Clocks never run backwards. Select, sockets and observers answer anything. A `select` is repeated only finitely often:
  the caller's breaker fires in the end. Observers do not close sockets. A new socket is one that is not open.
- Memory allocation succeeds.
- Netlink attributes are padded to four bytes, and IPv4 and IPv6 addresses have 4 and 16 bytes. The sizes of the socket
  address structures are Linux's; the size of `struct ifaddrs` is a parameter.
- A thread object has one owner, which does not start while it is joining.

## Model

| member | source | states |
|---|---|---|
| `CursorWindows.BeyondExact` | vendors/sqlite/CursorWindow.cpp:129-149 | the allocator grants a block that is not inside the buffer if and only if the end offset wraps around to one that is; a request of 2^32 bytes always does |
| `CursorWindows.GrantExact` | vendors/sqlite/CursorWindow.cpp:129-149 | a block granted by the 32-bit allocator arithmetic lies inside the buffer if and only if the end offset did not wrap around; aligned grants start at the next multiple of four |
| `CursorWindows.NoWrap` | vendors/sqlite/CursorWindow.cpp:129-149 | for buffers below 2^31 bytes and requests up to 2^31 the arithmetic never wraps |
| `CursorWindows.CursorWindow.Clear` | vendors/sqlite/CursorWindow.cpp:60-73 | whatever the buffer held, it becomes a well-formed window with an empty table, no columns and the free offset behind the first chunk; refused when read-only |
| `CursorWindows.CursorWindow.SetNumColumns` | vendors/sqlite/CursorWindow.cpp:75-87 | accepted exactly when the window is still empty and uncounted or the number stays the same; the table is kept |
| `CursorWindows.CursorWindow.Alloc` | vendors/sqlite/CursorWindow.cpp:129-149 | grants the block at the (aligned) free offset exactly when its 32-bit end offset does not pass the end of the buffer; a refusal changes nothing, a grant only the free offset |
| `CursorWindows.CursorWindow.LinkChunk` | vendors/sqlite/CursorWindow.cpp:170-183 | a newly linked chunk keeps the table and every other part where it was |
| `CursorWindows.CursorWindow.ReuseChunk` | vendors/sqlite/CursorWindow.cpp:177-179 | cutting the chunk list behind a reused chunk keeps the table, because no live row has a slot further on |
| `CursorWindows.CursorWindow.WalkToWrite` | vendors/sqlite/CursorWindow.cpp:162-169 | the writing walk ends at the chunk where the next row's slot is, or at the full last chunk |
| `CursorWindows.CursorWindow.AllocRowSlot` | vendors/sqlite/CursorWindow.cpp:162-183 | returns the slot that the reading walk will reach for the new row; on failure the table and the row count are as before |
| `CursorWindows.CursorWindow.AllocRow` | vendors/sqlite/CursorWindow.cpp:89-116 | for every column count: adds one row of nulls, or fails exactly when the allocator refuses chunk or directory, leaving the table as it was; the directory reaches past the buffer exactly when the grant does |
| `CursorWindows.CursorWindow.AllocDirectory` | vendors/sqlite/CursorWindow.cpp:100-115 | the directory of nulls for the row just counted, or the count taken back |
| `CursorWindows.CursorWindow.FillDirectory` | vendors/sqlite/CursorWindow.cpp:110-115 | the row counted last gets the zeroed block as its directory; the table is as before with a row of nulls behind it |
| `CursorWindows.CursorWindow.TightRow` | vendors/sqlite/CursorWindow.cpp:162-183 | while no chunk is linked before it is needed, the number of rows says where the next one's directory ends |
| `CursorWindows.CursorWindow.RowFits` | vendors/sqlite/CursorWindow.cpp:100-108 | for directories below 2^31 bytes a row fits exactly when the plain sum does |
| `CursorWindows.CursorWindow.BlockFits` | vendors/sqlite/CursorWindow.cpp:221-224 | a block of up to 2^31 bytes is granted exactly when it fits |
| `CursorWindows.CursorWindow.FreeLastRow` | vendors/sqlite/CursorWindow.cpp:118-127 | the table without its last row; no space is given back |
| `CursorWindows.CursorWindow.UncountRow` | vendors/sqlite/CursorWindow.cpp:123-125 | the table without its last row, at the same free offset |
| `CursorWindows.CursorWindow.GetRowSlot` | vendors/sqlite/CursorWindow.cpp:151-160 | the reading walk reaches the same slot as the writing walk, for every row |
| `CursorWindows.CursorWindow.GetFieldSlot` | vendors/sqlite/CursorWindow.cpp:185-199 | finds the field's slot if and only if the window has that row and column |
| `CursorWindows.CursorWindow.PutBlobOrString` | vendors/sqlite/CursorWindow.cpp:210-232 | for every size: exactly one cell of the table changes, to the given bytes; each refusal happens under exactly its condition and changes no cell; the bytes reach past the buffer exactly when the grant does |
| `CursorWindows.CursorWindow.StoreBuffer` | vendors/sqlite/CursorWindow.cpp:226-230 | filling a block just granted and pointing the slot to it changes that cell only |
| `CursorWindows.CursorWindow.PutBlob` | vendors/sqlite/CursorWindow.cpp:201-203 | the same for blobs |
| `CursorWindows.CursorWindow.PutString` | vendors/sqlite/CursorWindow.cpp:205-208 | the same for strings with their terminator |
| `CursorWindows.CursorWindow.PutLong` | vendors/sqlite/CursorWindow.cpp:234-247 | exactly one cell changes, to the integer; no space is used |
| `CursorWindows.CursorWindow.PutDouble` | vendors/sqlite/CursorWindow.cpp:249-262 | exactly one cell changes, to the eight bytes of the double |
| `CursorWindows.CursorWindow.PutNull` | vendors/sqlite/CursorWindow.cpp:264-278 | exactly one cell becomes null |
| `CursorWindows.CursorWindow.Get` | vendors/sqlite/CursorWindow.h:113-134 | reads back the table's cell, whatever was put there: the type decides how the slot is read |
| `WindowLayout.SlotsDistinct` | vendors/sqlite/CursorWindow.cpp:151-183 | different rows have different slots that do not overlap |
| `WindowLayout.NextLink` | vendors/sqlite/CursorWindow.cpp:155-158 | a chunk's link is 0 exactly at the end of the list, and every link leads further up |
| `WindowLayout.ChunksApart` | vendors/sqlite/CursorWindow.cpp:162-183 | chunks never overlap |
| `WindowLayout.AppendChunk` | vendors/sqlite/CursorWindow.cpp:171-176 | linking a chunk taken from the free space keeps the whole layout disjoint and the table unchanged |
| `WindowLayout.CutChunks` | vendors/sqlite/CursorWindow.cpp:177-179 | ending the list behind chunk `j` keeps layout and table when all live rows have slots up to it |
| `WindowLayout.AppendRow` | vendors/sqlite/CursorWindow.cpp:100-115 | a directory of zeros from the free space, stored in the next slot, is one more row of nulls |
| `WindowLayout.DropRow` | vendors/sqlite/CursorWindow.cpp:123-125 | one row fewer keeps everything else in place |
| `WindowLayout.WriteField` | vendors/sqlite/CursorWindow.cpp:221-231 | rewriting one field slot, with its bytes taken from the free space, changes that cell only and keeps all live parts disjoint below the free offset |
| `WindowLayout.SetColumns` | vendors/sqlite/CursorWindow.cpp:80-86 | while there are no rows the column count can be set freely |
| `WindowLayout.EmptyWindow` | vendors/sqlite/CursorWindow.cpp:65-72 | a cleared buffer is a well-formed window that stands for the empty table |
| `WindowLayout.Kept` | vendors/sqlite/CursorWindow.cpp:89-183 | a write inside the chunk list that touches no live row's slot leaves table and layout alone |
| `WindowLayout.StaysDisjoint` | vendors/sqlite/CursorWindow.cpp:129-149 | whatever is put behind the free offset overlaps nothing that was live |
| `FillWindow.PutValue` | vendors/sqlite/android_database_SQLiteConnection.cpp:630-701 | stores one column value as its type says, or fails exactly for lack of space; the caller sorts out unknown types |
| `FillWindow.CopyRow` | vendors/sqlite/android_database_SQLiteConnection.cpp:618-709 | the row is added cell for cell exactly when its types are known and its bytes fit; otherwise, wherever it failed, the table is as it was |
| `FillWindow.PackRow` | vendors/sqlite/android_database_SQLiteConnection.cpp:629-701 | the cells of the row just added are the values, exactly when all types are known and all bytes fit; the rows before it stay |
| `FillWindow.ReadsBack` | vendors/sqlite/android_database_SQLiteConnection.cpp:635-695 | the stored form keeps every value, and a text's ends in a zero |
| `FillWindow.RowsReadBack` | vendors/sqlite/android_database_SQLiteConnection.cpp:629-701 | rows of known values that are stored alike are alike |
| `FillWindow.CopyBehind` | vendors/sqlite/android_database_SQLiteConnection.cpp:748-748 | what becomes of a row behind others depends on these rows only: whether its known values fit, and whether all are known |
| `FillWindow.PageIsLongest` | vendors/sqlite/android_database_SQLiteConnection.cpp:748-766 | a page has every row behind its first, up to the last or to one that does not fit or is of unknown type |
| `FillWindow.PageIsRight` | vendors/sqlite/android_database_SQLiteConnection.cpp:749-758 | rows are left out in front only as whole pages that end before the required row, and the page kept has it or none follows |
| `FillWindow.StartMoves` | vendors/sqlite/android_database_SQLiteConnection.cpp:749-758 | one more row moves the start only if it does not fit and the required row is not reached, and then to itself |
| `FillWindow.PageStep` | vendors/sqlite/android_database_SQLiteConnection.cpp:743-766 | a row behind an open page joins it, closes it, or starts the next one |
| `FillWindow.Delivered` | vendors/sqlite/android_database_SQLiteConnection.cpp:736-760 | in every state of the fill the required row is in the window if and only if it was reached and no row up to it is too big for an empty window |
| `FillWindow.FullStop` | vendors/sqlite/android_database_SQLiteConnection.cpp:744-763 | a full window has refused a row, and then holds the required row if and only if no row up to it is too big |
| `FillWindow.RowCopied` | vendors/sqlite/android_database_SQLiteConnection.cpp:760-761 | a copied row extends the slice |
| `FillWindow.RowRefused` | vendors/sqlite/android_database_SQLiteConnection.cpp:762-763 | a refused row leaves a slice that reaches past the required row, or the row fits no window |
| `FillWindow.Restarted` | vendors/sqlite/android_database_SQLiteConnection.cpp:749-758 | restarting with the row at hand keeps the slice contiguous and its start not past the required row |
| `FillWindow.CountOnly` | vendors/sqlite/android_database_SQLiteConnection.cpp:743-746 | rows before the start position or after a full window are only counted |
| `FillWindow.TakeRow` | vendors/sqlite/android_database_SQLiteConnection.cpp:748-766 | one row's turn, through a restart if need be: the window holds the page of the required row for one row more, and the row is refused only if it does not fit behind the rows kept |
| `FillWindow.RunOn` | vendors/sqlite/android_database_SQLiteConnection.cpp:738-782 | a row resets the busy count and at most 51 busy results in a row are tolerated |
| `FillWindow.Stop` | vendors/sqlite/android_database_SQLiteConnection.cpp:736-787 | the loop stops for the reasons it should, and at the first of them |
| `FillWindow.ExecuteForCursorWindow` | vendors/sqlite/android_database_SQLiteConnection.cpp:711-800 | for every stream with finitely many rows: it terminates, counts the rows, and leaves exactly the page that the required row is on: every row behind its first, up to the last one reached or one that does not fit; the required row is there exactly when it can be; before the rows end it stops only when a row was refused, and without counting at once |
| `TcpClientFsm.TimeLeftExact` | network/tcpclient_fsm.cc:253-261 | a connect time-out that has not passed counts as passed exactly when 2^31 milliseconds or more of it are left; one that has counts so for another 2^31 |
| `TcpClientFsm.TimedOutAtOnce` | network/tcpclient_fsm.cc:253-261 | so one of 2^31 milliseconds ends the attempt at its first quiet look |
| `Channels.ChannelConserves` | network/tcpclient_fsm.cc:293-345 | over every mix of requests, partial sends and receives the send buffer holds, in order, what was written and not yet taken, and the receive buffer all that arrived |
| `Channels.SendConserves` | network/tcpclient_fsm.cc:293-315 | the same for the send buffer alone |
| `Channels.ReceiveConserves` | network/tcpclient_fsm.cc:317-345 | the same for the receive buffer alone |
| `TcpClientFsm.ConnectCheckFSM.PreSelect` | network/tcpclient_fsm.cc:99-118 | a started attempt keeps its state; one not started begins |
| `TcpClientFsm.ConnectCheckFSM.OpenSocket` | network/tcpclient_fsm.cc:153-186 | a new non-blocking socket, or the attempt has ended with the error met |
| `TcpClientFsm.ConnectCheckFSM.StartConnect` | network/tcpclient_fsm.cc:188-208 | the socket is connecting to the attempt's address, or the attempt has ended with the error met |
| `TcpClientFsm.ConnectCheckFSM.PreConnectSelect` | network/tcpclient_fsm.cc:149-213 | either a new socket connects to the attempt's own address, or the attempt has ended with exactly the error met |
| `TcpClientFsm.ConnectCheckFSM.AfterSelect` | network/tcpclient_fsm.cc:120-130 | dispatches on the state and keeps the socket |
| `TcpClientFsm.ConnectCheckFSM.AfterConnectSelect` | network/tcpclient_fsm.cc:215-262 | an exception or pending error ends the attempt with that error, a writable socket connects it, otherwise it ends exactly when the 32-bit time-out computation says so; the check fails exactly when the observer refuses |
| `TcpClientFsm.ConnectCheckFSM.AfterReadWriteSelect` | network/tcpclient_fsm.cc:275-355 | what becomes of the attempt and both buffers for every combination of what select reported and what send and receive answered |
| `TcpClientFsm.ConnectCheckFSM.Push` | network/tcpclient_fsm.cc:293-315 | exactly the sent bytes leave the send buffer; a failing send ends the attempt with its error; on the two buffers it is the channel's sending step |
| `TcpClientFsm.ConnectCheckFSM.Pull` | network/tcpclient_fsm.cc:317-345 | received bytes go behind the earlier ones and may decide a pending check; a close or an error ends the attempt; on the two buffers it is the channel's receiving step |
| `TcpClientFsm.ConnectCheckFSM.OnConnected` | network/complexconnect.cc:51-65 | a check that is pending fails if and only if the observer refuses to send; it never passes here |
| `TcpClientFsm.ConnectCheckFSM.OnRecv` | network/complexconnect.cc:67-74 | a check that is pending passes if and only if the observer accepts all that was received, and fails otherwise; a passed one is left alone |
| `TcpClientFsm.ConnectCheckFSM.QuietFor` | network/complexconnect.cc:90-95 | a connected attempt may be quiet for a second at least, and longer only up to six times its connecting time and within the connect time-out |
| `TcpClientFsm.ConnectCheckFSM.Close` | network/tcpclient_fsm.cc:72-93 | closes the socket if there is one, exactly once; an attempt that was under way ends |
| `MultiConnects.DueExact` | network/complexconnect.cc:151-165 | for every clock value: the 32-bit computation lets a start through exactly when the wait is over by at most 2^31 milliseconds modulo 2^32; so too early exactly when 2^31 or more are left |
| `MultiConnects.StartKeepsPace` | network/complexconnect.cc:151-173 | whatever is decided as the guard says keeps the history right: a start when one is left, allowed and due, and none otherwise |
| `MultiConnects.Due32Means` | network/complexconnect.cc:151-165 | a wait below 2^31 milliseconds is taken for over exactly when it is, for another 2^31 |
| `MultiConnects.DueNoMore` | network/complexconnect.cc:151-151 | one that has been over for longer counts as running again |
| `MultiConnects.DecidesRight` | network/complexconnect.cc:133-165 | the computation, with the start mark set in front of the loop, decides as the history of starts and failures says |
| `MultiConnects.FirstStarts` | network/complexconnect.cc:133-173 | in a run shorter than 2^31 milliseconds the first attempt is started |
| `MultiConnects.TimedIsPaced` | network/complexconnect.cc:151-173 | intervals below 2^31 are kept in every run |
| `MultiConnects.StartedAtOnce` | network/complexconnect.cc:151-173 | an interval of 2^31 is not: two starts in the same millisecond pass the test and break the pace |
| `MultiConnects.LostKeepsPace` | network/complexconnect.cc:215-237 | a failed attempt does not disturb the pace kept |
| `MultiConnects.LedgerOpen` | network/tcpclient_fsm.cc:153-162 | a new socket gets exactly one owner |
| `MultiConnects.LedgerDrop` | network/complexconnect.cc:220-222 | a closed socket, or the one handed out, loses its owner and nobody else's socket is the same |
| `MultiConnects.CountConnecting` | network/complexconnect.cc:105-154 | the running count is the number of sockets owned |
| `MultiConnects.PreSelectOne` | network/complexconnect.cc:175-180 | only an attempt that was not started opens a socket, and the ledger of owners follows |
| `MultiConnects.PreSelectAll` | network/complexconnect.cc:175-180 | of all started attempts at most the last one opens a socket; none has ended before |
| `MultiConnects.AfterSelectOne` | network/complexconnect.cc:210-254 | an attempt goes on, or gives up and is closed, or wins: then it is connected, has passed its check, and its socket is open, was reported connected, and is made for its own address |
| `MultiConnects.TakeTurn` | network/complexconnect.cc:210-254 | one started attempt's turn: what is left of the attempts, of the socket owners and of the history behind it |
| `MultiConnects.AfterSelectAll` | network/complexconnect.cc:210-254 | only attempts that gave up, or the winner, which passed its check, disappear; the others are connecting or waiting for their check |
| `MultiConnects.TakeSocket` | network/complexconnect.cc:245-252 | the socket of an attempt that passed is handed out unclosed and has no owner any more |
| `MultiConnects.CloseOne` | network/complexconnect.cc:220-222 | closing an attempt closes its socket and no other |
| `MultiConnects.CloseAll` | network/complexconnect.cc:269-275 | after it exactly the sockets from before are open, and the returned one |
| `MultiConnects.NothingOwned` | network/complexconnect.cc:269-277 | with no attempt left no socket is owned |
| `MultiConnects.MultiConnect.StartDue` | network/complexconnect.cc:146-173 | an attempt is started if and only if there is one left, fewer than the cap are running, and the interval that applies is over at a look at the clock in between; it is the next in order |
| `MultiConnects.MultiConnect.Prepare` | network/complexconnect.cc:146-180 | makes exactly one such decision, with the number of sockets open now; never more than `max_connect_` are open; after it every started attempt has left its start state |
| `MultiConnects.MultiConnect.Harvest` | network/complexconnect.cc:209-266 | stops without a winner only when every address was tried and no attempt is left; what disappears gave up or won; the winner passed its check and the reported times are its own |
| `MultiConnects.MultiConnect.Iterate` | network/complexconnect.cc:145-267 | keeps the loop's invariant: every live started attempt is connecting, or connected with its check pending |
| `MultiConnects.MultiConnect.RunLoop` | network/complexconnect.cc:136-267 | the attempts that are gone are exactly those that gave up, and the winner |
| `MultiConnects.MultiConnect.Turn` | network/complexconnect.cc:145-267 | what gave up stays so through later iterations |
| `MultiConnects.MultiConnect.Race` | network/complexconnect.cc:136-277 | the loop and the cleaning up behind it |
| `MultiConnects.MultiConnect.TryConnect` | network/complexconnect.cc:108-283 | on every exit every socket opened is closed again except the one returned; that one was reported connected, is open, belongs to address `index_`, and if a check was asked for the observer accepted what it received; the times reported are its own; without one, the caller broke off or all addresses were tried and every attempt failed or was turned down; before every select an attempt is started exactly when one is left, allowed and due, so the first one always is; cap, order and pace hold throughout |
| `Utf8.CharTurn` | vendors/sqlite/JNIString.cpp:31-115 | each code point's UTF-8 form (section 3 of RFC 3629), and each surrogate written on its own, decodes to its UTF-16 form (section 2.1 of RFC 2781), whatever follows |
| `Utf8.Surrogates` | vendors/sqlite/JNIString.cpp:99-110 | the shifts and masks used for supplementary code points are the standard's pair |
| `Utf8.TwoBytes` | vendors/sqlite/JNIString.cpp:39-102 | two-byte forms |
| `Utf8.ThreeBytes` | vendors/sqlite/JNIString.cpp:39-102 | three-byte forms |
| `Utf8.FourBytes` | vendors/sqlite/JNIString.cpp:39-110 | four-byte forms |
| `Utf8.DecodeText` | vendors/sqlite/JNIString.cpp:27-117 | valid text in front of any bytes decodes to its UTF-16 form followed by what those bytes decode to |
| `Utf8.DecodeEncode` | vendors/sqlite/JNIString.cpp:27-117 | decoding the UTF-8 form of every sequence of code points gives its UTF-16 form, and decoding splits after valid text |
| `Utf8.DecodeUnits` | vendors/sqlite/JNIString.cpp:86-91 | every sequence of 16-bit units, unpaired surrogates too, survives being written unit by unit |
| `Utf8.TakeTrails` | vendors/sqlite/JNIString.cpp:59-71 | takes the continuation bytes up to the first that is none, which it puts back |
| `Utf8.StoreValue` | vendors/sqlite/JNIString.cpp:86-110 | replaces surrogates outside three-byte forms and values past U+10FFFF, and splits supplementary ones |
| `Utf8.StoreTurn` | vendors/sqlite/JNIString.cpp:32-115 | one turn of the loop, as the specification takes it, and nothing else in the array changes |
| `Utf8.Utf8ToJavaCharArray` | vendors/sqlite/JNIString.cpp:27-117 | for every byte string the array holds its decoding, never more units than there were bytes |
| `Utf8Malformed.NothingLost` | vendors/sqlite/JNIString.cpp:31-115 | whatever bytes are in front of a text, all of the text is decoded, and so is what is behind it |
| `Utf8Malformed.StraysReplaced` | vendors/sqlite/JNIString.cpp:111-114 | a byte that no form starts with is replaced |
| `Utf8Malformed.BrokenReplaced` | vendors/sqlite/JNIString.cpp:61-72 | a form broken off by another byte is replaced as one, and decoding goes on with that byte |
| `Utf8Malformed.CutOffReplaced` | vendors/sqlite/JNIString.cpp:55-58 | a form that the end cuts off loses its lead byte only |
| `Utf8Malformed.CompleteForm` | vendors/sqlite/JNIString.cpp:60-110 | a complete form, overlong or not, is the UTF-16 form of its value, but for surrogates outside three bytes and values past U+10FFFF, which are replaced |
| `Utf8Malformed.OverlongZero` | vendors/sqlite/JNIString.cpp:76-86 | `C0 80` decodes to zero |
| `InetText.RoundTrip4` | utils/unix_socket.cc:39-221 | every IPv4 address survives printing and parsing |
| `InetText.DecIsShort` | utils/unix_socket.cc:202-215 | bytes are printed without leading zeros |
| `InetText.CapitalDigits` | utils/unix_socket.cc:157-163 | capital digits have the values of the small ones |
| `InetText.HexRoundTrip` | utils/unix_socket.cc:157-169 | group text reads back as the group |
| `InetText.RunsMeaning` | utils/unix_socket.cc:236-248 | the scan's marks are positions in zero runs, and its maximum is the first longest run of length over one |
| `InetText.LongRun` | utils/unix_socket.cc:249-261 | with a run longer than one, exactly that run stays marked |
| `InetText.ShortRuns` | utils/unix_socket.cc:249-261 | without one, every zero group stays marked as a run of its own |
| `InetText.ReadOneRun` | utils/unix_socket.cc:126-177 | groups, a double colon and the remaining groups read back as the address |
| `InetText.ReadDotted` | utils/unix_socket.cc:98-125 | the dotted forms read back |
| `InetText.PrintDotted` | utils/unix_socket.cc:262-276 | writes `::` or `::ffff:`, the dotted bytes and the terminator |
| `InetText.DottedExactly` | utils/unix_socket.cc:262-276 | the marks call for dots exactly when the first five groups are zero and the sixth is 0xFFFF, or zero with the seventh not |
| `InetText.PrintsDotted` | utils/unix_socket.cc:262-276 | the text has dots exactly for these addresses, and is then `::` or `::ffff:` and the IPv4 text of the last four bytes |
| `InetText.RoundTripDotted` | utils/unix_socket.cc:262-276 | an address printed with a dotted tail survives |
| `InetText.RoundTripOneRun` | utils/unix_socket.cc:277-293 | an address with one marked run survives |
| `InetText.TwoZerosFail` | utils/unix_socket.cc:127-133 | two isolated zero groups print as two double colons, which the parser refuses as invalid |
| `InetText.RoundTrip6` | utils/unix_socket.cc:76-295 | for every IPv6 address: the printed text parses back to it if it has two adjacent zero groups or at most one zero group, and is refused as invalid otherwise (section 2.2 of RFC 4291 asks for the first always) |
| `InetText.Ntop6Fits` | utils/unix_socket.cc:224-227 | the text never exceeds 45 characters, so it fits with its terminator |
| `InetText.FirstLongest` | utils/unix_socket.cc:236-248 | of several longest runs the first is kept |
| `InetText.PrintsLongest` | utils/unix_socket.cc:236-293 | an address with adjacent zero groups, not printed with dots, is printed with its first longest zero run as `::` and the other groups in hexadecimal |
| `InetText.LastMark` | utils/unix_socket.cc:249-261 | the last group stays marked exactly when it is zero and either no zero groups are adjacent or the run at the end is longer than all before it |
| `InetText.TextEnds` | utils/unix_socket.cc:277-293 | exactly then the text ends in a double colon |
| `InetText.FewColons` | utils/unix_socket.cc:277-293 | isolated zero groups print with too few colons to lead the parser out of the address |
| `InetText.InetPton4` | utils/unix_socket.cc:39-73 | the loop, which works in one pass with a byte count, computes the value that `InetAccepted.Accepts4` characterises: the four bytes between three dots, or a refusal |
| `InetText.PrintByte` | utils/unix_socket.cc:202-215 | writes the decimal digits and nothing else |
| `InetText.InetNtopV4` | utils/unix_socket.cc:190-221 | writes the dotted text and its terminator and nothing else |
| `InetText.FindRuns` | utils/unix_socket.cc:230-261 | the two loops over the groups find the marks and the longest run |
| `InetText.PrintGroup` | utils/unix_socket.cc:278-292 | one turn of the printing loop |
| `InetText.PrintGroups` | utils/unix_socket.cc:277-293 | the general form |
| `InetText.InetNtopV6` | utils/unix_socket.cc:224-295 | writes the text; it has dots exactly for an embedded IPv4 address; the terminator is written exactly when the text does not end in a double colon, that is unless the address ends in the zero run printed so |
| `InetText.ReadTail` | utils/unix_socket.cc:98-124 | the dotted tail, with or without the `ffff:` prefix |
| `InetText.ReadGroups` | utils/unix_socket.cc:126-177 | the group loop leaves the address that `InetAccepted6.ReadsText` characterises, refuses, or writes outside, which `InetLimits.LoopOutside` characterises |
| `InetText.CountColons` | utils/unix_socket.cc:137-151 | counts the colons left |
| `InetText.InetPton6` | utils/unix_socket.cc:76-177 | the parser's result for every text; which texts these are and what they mean is `InetAccepted6.Accepts6` and, for dotted tails, `InetAccepted6.AcceptsDotted` |
| `InetAccepted.Accepts4` | utils/unix_socket.cc:39-73 | a text is accepted if and only if splitting it at the dots gives four pieces of decimal digits worth at most 255 each; it then means these four bytes |
| `InetAccepted.ReadsPieces` | utils/unix_socket.cc:44-72 | the same from any number of bytes already read |
| `InetAccepted6.Accepts6` | utils/unix_socket.cc:76-177 | a text without a dotted tail is accepted if and only if it has no `x` and, but for one leading colon, its pieces are words: eight, or around the first `::` at most seven in front and eight behind; those behind are the last groups, and the groups left are zero |
| `InetAccepted6.AcceptsDotted` | utils/unix_socket.cc:98-124 | a text with a dotted tail is accepted if and only if the tail is four bytes between dots, alone or behind a word of four characters worth 0xFFFF |
| `InetAccepted6.ScanLocal` | utils/unix_socket.cc:155-169 | the scanner reads a word as if nothing were behind its colon |
| `InetAccepted6.ReadsWords` | utils/unix_socket.cc:126-177 | behind the `::` exactly as many words as groups are left are accepted |
| `InetAccepted6.ReadsText` | utils/unix_socket.cc:126-177 | from any group on the loop accepts exactly what the text's pieces around its first `::` say |
| `InetAccepted6.LostGroups` | utils/unix_socket.cc:137-153 | every group of an accepted text with `::`: groups in front are overwritten if and only if they and the groups behind are more than eight, that is if they and the colons behind exceed seven |
| `InetAccepted6.Overwrites` | utils/unix_socket.cc:137-153 | any groups, a `::` and any groups: those behind win |
| `InetAccepted6.FifthIsLost` | utils/unix_socket.cc:153-153 | `1:2:3:4:5::6:7:8:9` is accepted as the eight groups without the 5 |
| `InetLimits.ReachIsFirst` | utils/unix_socket.cc:127-129 | the group loop, when it reaches a double colon, stands at the text's first |
| `InetLimits.LoopOutside` | utils/unix_socket.cc:126-170 | the group loop writes in front of the address exactly when it reaches a double colon with at least eight colons behind it and a word next |
| `InetLimits.OutsideExactly` | utils/unix_socket.cc:76-177 | the same for every text given to the parser: none with an `x` or a dotted tail |
| `InetLimits.StaysInside` | utils/unix_socket.cc:136-152 | so never for a text with fewer than eight colons behind its first double colon, or without one |
| `InetLimits.PrintedStaysInside` | utils/unix_socket.cc:76-295 | never for a printed address |
| `InetLimits.NineGroups` | utils/unix_socket.cc:136-163 | nine groups behind a double colon are such a text |
| `InetLimits.AllZeros` | utils/unix_socket.cc:277-293 | the text of the all-zero address ends in a double colon, so it is such an address without a terminator |
| `InetLimits.TwoIsolatedZeros` | utils/unix_socket.cc:249-293 | 1:0:2:0:3:4:5:6 prints as `1::2::3:4:5:6`, which is refused |
| `Base64.Tables` | vendors/curl/lib/base64.c:36-43 | no character occurs twice in an alphabet |
| `Base64.Alphabets` | vendors/curl/lib/base64.c:36-43 | the two alphabets of RFC 4648 |
| `Base64.QuantumValue` | vendors/curl/lib/base64.c:216-256 | the characters' places are the digits to base 64 of the bytes' number, with padding for missing bytes |
| `Base64.DecodeAll` | vendors/curl/lib/base64.c:148-159 | decoding the groups of an encoding gives the bytes back |
| `Base64.EncodedPadding` | vendors/curl/lib/base64.c:235-256 | an encoding's padding is its last zero, one or two characters, as the length says |
| `Base64.RoundTrip` | vendors/curl/lib/base64.c:100-272 | decoding the encoding of every non-empty byte string gives it back (section 4 of RFC 4648) |
| `Base64.BufferExact` | vendors/curl/lib/base64.c:198-200 | the text and its terminator fit the buffer that is allocated, and fill it exactly when the length is 1 modulo 3 |
| `Base64.GroupBack` | vendors/curl/lib/base64.c:45-84 | a group re-encodes to itself exactly when its unused bits are zero |
| `Base64.Reencode` | vendors/curl/lib/base64.c:100-169 | a text that decodes is the encoding of its bytes if and only if its unused bits are zero |
| `Base64.DecodesExactly` | vendors/curl/lib/base64.c:100-169 | exactly the texts of whole groups over the alphabet, with at most two padding characters at the end, decode, each to three bytes a group less one for each of these |
| `Base64.UnusedBits` | vendors/curl/lib/base64.c:45-84 | `QR==` decodes to the byte that is encoded as `QQ==` |
| `Base64.Base64Encode` | vendors/curl/lib/base64.c:171-272 | for every input the allocated buffer holds the encoding and its terminator |
| `Base64.EncodeInto` | vendors/curl/lib/base64.c:216-261 | the loop over groups of three |
| `Base64.DecodeInto` | vendors/curl/lib/base64.c:148-160 | the loop over the groups of a padded text: fills the block with exactly the decoded bytes, or reports that a group is bad |
| `Base64.DecodeQuantum` | vendors/curl/lib/base64.c:45-84 | writes exactly the bytes of one group, or reports a bad one and writes nothing |
| `Base64.Base64Decode` | vendors/curl/lib/base64.c:100-169 | succeeds on exactly the texts of whole groups over the alphabet with proper padding, and then the block holds exactly the decoded bytes and a zero |
| `MsgQueueSpec.SendKeeps` | utils/msgqueue.h:300-313 | sending keeps the invariant, whatever else is going on |
| `MsgQueueSpec.AddHandlerKeeps` | utils/msgqueue.h:455-474 | so does adding a handler |
| `MsgQueueSpec.CancelKeeps` | utils/msgqueue.h:325-440 | so does every cancel: the message being handled stays in the list |
| `MsgQueueSpec.LookKeeps` | utils/msgqueue.h:721-782 | so does taking up a message |
| `MsgQueueSpec.ReturnKeeps` | utils/msgqueue.h:779-787 | so does the return of a handler, after whatever happened while the mutex was free |
| `MsgQueueSpec.Always` | utils/msgqueue.h:285-791 | the invariant holds after every run of steps by any threads in any order |
| `MsgQueueSpec.InFlightStays` | utils/msgqueue.h:767-783 | a message is in the list until its handler has returned, whatever is cancelled meanwhile |
| `MsgQueueSpec.WaitedFor` | utils/msgqueue.h:564-589 | when a waiter finds an issued number gone, its message was finished after a handler had it, or cancelled before any handler saw it, or dropped after `quit`; it is not being handled |
| `MsgQueueSpec.DroppedOnExit` | utils/msgqueue.h:767-784 | a message is dropped only after `quit` |
| `MsgQueueSpec.AtMostOnce` | utils/msgqueue.h:764-785 | a message that is not a broadcast is handed to a handler at most once |
| `MsgQueueSpec.PickOrder` | utils/msgqueue.h:725-762 | messages are taken up once each, and immediate ones in the order they were sent |
| `MsgQueueSpec.DueMeans` | utils/msgqueue.h:731-738 | a message is due when it is immediate, its delay is not positive, or at least its delay has passed since it was recorded |
| `MsgQueueSpec.WaitsOut` | utils/msgqueue.h:733-762 | in every run a delayed message is taken up only when its delay is over |
| `MsgQueueSpec.LookExactly` | utils/msgqueue.h:721-762 | a look takes nothing exactly when no message is immediate and no delay is over; otherwise the first such message |
| `MsgQueueSpec.FateIsFinal` | utils/msgqueue.h:783-785 | a message's fate never changes |
| `MsgQueueSpec.CancelSeqExact` | utils/msgqueue.h:325-352 | cancelling a number removes that message and no other, unless it is being handled |
| `MsgQueueSpec.CancelFirstExact` | utils/msgqueue.h:407-440 | cancelling one alike message removes the first of them and no other, unless that one is being handled; then none goes |
| `MsgQueueSpec.CancelForExact` | utils/msgqueue.h:382-405 | cancelling a handler's messages removes exactly those not being handled |
| `MsgQueueSpec.CancelAlikeExact` | utils/msgqueue.h:355-380 | cancelling alike messages removes exactly those in front of the first one being handled |
| `MsgQueueCalls.AlwaysCalls` | utils/msgqueue.h:764-785 | in every run, for every message: exactly the handlers gone through that take it were called with it, each once |
| `MsgQueueCalls.FinishedMeans` | utils/msgqueue.h:764-785 | with a finished message every handler that takes it was called exactly once, and no other |
| `MsgQueueCalls.DroppedMeans` | utils/msgqueue.h:767-784 | a dropped message was handed to the handlers before some place; a later one takes it too and was not called, such as a broadcast's later handler |
| `MsgQueueCalls.TakenUp` | utils/msgqueue.h:725-784 | a message taken up is handed to a handler if and only if the exit flag is not set then |
| `MsgQueueCalls.UnhandledExactly` | utils/msgqueue.h:564-589 | in every run: a message is gone, not cancelled and seen by no handler if and only if the look that took it up found the flag set |
| `MsgQueueCalls.WaitedForExactly` | utils/msgqueue.h:564-589 | when the wait for an issued number ends, no handler had its message if and only if it was cancelled or taken up with the flag set |
| `MsgQueueCalls.NoCallAfterExit` | utils/msgqueue.h:767-767 | once the flag is set no handler is called any more, whatever steps follow |
| `MsgQueueCalls.OneDropped` | utils/msgqueue.h:701-784 | at most one message is ever dropped, and the thread does nothing after it |
| `MsgQueueCalls.DroppedRun` | utils/msgqueue.h:553-589 | a run of five steps in which a message's waiters wake up though no handler had it |
| `MsgQueueSent.KeptAsSent` | utils/msgqueue.h:300-313 | in every run the messages waiting, taken up, finished or dropped are those sent under their numbers, and numbers are given in the order of sending |
| `MsgQueueSent.HandlerWasAdded` | utils/msgqueue.h:442-474 | a message is accepted exactly when a handler with its id was added |
| `MsgQueueSent.Reaches` | utils/msgqueue.h:764-785 | a finished message was handed once to the handler it was sent to and, if a broadcast, to those for broadcasts, and to no other |
| `MsgQueueSent.CancelsSeq` | utils/msgqueue.h:325-352 | in every run, cancelling a number cancels that message unless it is being handled, and no other |
| `MsgQueueSent.CancelsAlike` | utils/msgqueue.h:355-380 | cancelling alike messages cancels those in front of the first one being handled, and no others |
| `MsgQueueSent.CancelsFor` | utils/msgqueue.h:382-405 | cancelling a handler's messages cancels those not being handled, and no others |
| `MsgQueueSent.CancelsFirst` | utils/msgqueue.h:407-440 | cancelling one alike message cancels the first of them unless it is being handled, and no other |
| `MsgQueues.MsgQueue.FindHandler` | utils/msgqueue.h:442-453 | whether a handler has the id |
| `MsgQueues.MsgQueue.SendMsg` | utils/msgqueue.h:300-313 | takes the sending step and returns the number given, or -1 |
| `MsgQueues.MsgQueue.Subscribe` | utils/msgqueue.h:455-474 | adds the handler unless its id is taken |
| `MsgQueues.MsgQueue.CancelMsgSeq` | utils/msgqueue.h:325-352 | takes the step of cancelling a number |
| `MsgQueues.MsgQueue.CancelMsg` | utils/msgqueue.h:355-380 | takes the step of cancelling alike messages |
| `MsgQueues.MsgQueue.CancelHandler` | utils/msgqueue.h:382-405 | takes the step of cancelling a handler's messages |
| `MsgQueues.MsgQueue.CancelOne` | utils/msgqueue.h:407-440 | takes the step of cancelling the first alike message, and tells whether there was one |
| `MsgQueues.MsgQueue.RaiseExit` | utils/msgqueue.h:553-557 | sets the flag |
| `MsgQueues.MsgQueue.MustWait` | utils/msgqueue.h:570-586 | waits on exactly while the number is in the list |
| `MsgQueues.MsgQueue.MustWaitFor` | utils/msgqueue.h:594-612 | waits on exactly while a message for the handler is in the list |
| `MsgQueues.MsgQueue.MustWaitForMsg` | utils/msgqueue.h:620-637 | waits on exactly while such a message is in the list |
| `MsgQueues.MsgQueue.CheckExit` | utils/msgqueue.h:701-701 | goes on exactly when the flag is not set |
| `MsgQueues.MsgQueue.Scan` | utils/msgqueue.h:721-756 | finds the first message that is immediate or whose delay is over when it is looked at; every one in front of it still waits |
| `MsgQueues.MsgQueue.TakeNext` | utils/msgqueue.h:721-781 | takes up the first due message, or goes back to the check |
| `MsgQueues.MsgQueue.EraseSeq` | utils/msgqueue.h:331-350 | the erasing loop of cancelling a number |
| `MsgQueues.MsgQueue.EraseAlike` | utils/msgqueue.h:358-378 | the erasing loop of cancelling alike messages |
| `MsgQueues.MsgQueue.EraseFor` | utils/msgqueue.h:385-403 | the erasing loop of cancelling a handler's messages |
| `MsgQueues.MsgQueue.EraseFirst` | utils/msgqueue.h:410-434 | the loop that erases the first alike message |
| `MsgQueues.MsgQueue.HandlerReturned` | utils/msgqueue.h:779-787 | goes on behind the handler that returned |
| `MsgQueues.MsgQueue.HandOn` | utils/msgqueue.h:764-785 | calls the next handler that takes the message, or removes the message |
| `AutoBuffers.WriteThenRead` | utils/autobuffer.cc:70-78 | bytes written at a place are read back there, and all others are as before |
| `AutoBuffers.ShiftBack` | utils/autobuffer.cc:142-158 | moving forwards and back restores bytes and position |
| `AutoBuffers.ShiftTwice` | utils/autobuffer.cc:148-155 | dropping in two goes is dropping in one |
| `AutoBuffers.Queued` | utils/autobuffer.cc:60-158 | over every mix of appending and dropping the buffer holds what was appended except what was dropped, in order |
| `AutoBuffers.AutoBuffer.FitSize` | utils/autobuffer.cc:266-286 | growing keeps the bytes, zeroes the new ones and rounds up to the unit |
| `AutoBuffers.AutoBuffer.AllocWrite` | utils/autobuffer.cc:49-54 | makes room behind the position, and changes the length only if asked |
| `AutoBuffers.AutoBuffer.AddCapacity` | utils/autobuffer.cc:56-58 | bytes and position stay |
| `AutoBuffers.AutoBuffer.Put` | utils/autobuffer.cc:70-78 | overwrites or extends, and keeps the position |
| `AutoBuffers.AutoBuffer.Write` | utils/autobuffer.cc:60-63 | writes at the position and moves it behind |
| `AutoBuffers.AutoBuffer.Read` | utils/autobuffer.cc:100-104 | the bytes at the position, as many as there are, and the position moves behind them |
| `AutoBuffers.AutoBuffer.Move` | utils/autobuffer.cc:142-158 | zeros come in at the front or exactly the first bytes go, and the position follows its byte |
| `AutoBuffers.AutoBuffer.Seek` | utils/autobuffer.cc:160-184 | the position, kept inside the bytes |
| `AutoBuffers.AutoBuffer.SetLength` | utils/autobuffer.cc:186-192 | sets length and position |
| `AutoBuffers.AutoBuffer.Attach` | utils/autobuffer.cc:226-231 | holds exactly the given bytes |
| `AutoBuffers.AutoBuffer.AttachBuffer` | utils/autobuffer.cc:233-242 | takes everything over and leaves the other buffer empty |
| `AutoBuffers.AutoBuffer.Detach` | utils/autobuffer.cc:244-254 | hands out the bytes and is empty |
| `AutoBuffers.AutoBuffer.Reset` | utils/autobuffer.cc:256-264 | is empty |
| `TcpClientSpec.StepKeeps` | network/tcpclient.cc:95-314 | every step of the writers and of the I/O thread keeps the invariant |
| `TcpClientSpec.Always` | network/tcpclient.cc:95-314 | so it holds in every run, for every interleaving and every partial send |
| `TcpClientSpec.BytesConserved` | network/tcpclient.cc:285-314 | the bytes the socket took are the removed buffers one after the other and the front buffer's bytes up to its position |
| `TcpClientSpec.SentInOrder` | network/tcpclient.cc:285-314 | they are always a beginning of what the writers handed in |
| `TcpClientSpec.AcceptedIsHanded` | network/tcpclient.cc:95-120 | what was accepted is what the writers handed in while they saw the connection up, in order, and the bytes sent are a beginning of it |
| `TcpClientSpec.LookAsks` | network/tcpclient.cc:216-226 | after a look the thread waits for writability exactly when not everything accepted was reported as written |
| `TcpClientSpec.WritableMoves` | network/tcpclient.cc:285-303 | a socket with room takes min(room, rest) bytes of the write in front; with nothing left of it the write is done; without room nothing changes, or the thread ends |
| `TcpClientSpec.DrainedExactly` | network/tcpclient.cc:308-313 | OnAllWrote comes exactly when everything accepted was reported |
| `TcpClientSpec.ReportsMatch` | network/tcpclient.cc:302-306 | the k-th OnWrote carries the number returned by the k-th accepted write and that write's size, after all its bytes were taken |
| `TcpClientSpec.DrainedMeans` | network/tcpclient.cc:308-313 | OnAllWrote comes only when everything accepted until then was taken |
| `TcpClientSpec.Monotone` | network/tcpclient.cc:95-314 | no step takes back a byte sent, a write accepted or a report made |
| `TcpClientSpec.FrontIsThere` | network/tcpclient.cc:222-287 | when the thread wakes up to write there is a front buffer |
| `TcpClients.TcpClient.Write` | network/tcpclient.cc:95-107 | a copy of the bytes joins the queue under the returned number, or -1 |
| `TcpClients.TcpClient.WritePostData` | network/tcpclient.cc:109-120 | the caller's own bytes join the queue |
| `TcpClients.TcpClient.PrepareSelect` | network/tcpclient.cc:216-226 | asks for writability exactly when there is something queued |
| `TcpClients.TcpClient.OnWritable` | network/tcpclient.cc:285-303 | sends from the front buffer what there is room for, or removes it when all was sent |
| `TcpClients.TcpClient.ReportWrote` | network/tcpclient.cc:306-306 | reports the next number and the size |
| `TcpClients.TcpClient.ReportDrained` | network/tcpclient.cc:308-313 | reports exactly when the queue is empty at that moment |
| `TcpClients.Streams.SendPart` | network/tcpclient_fsm.cc:293-315 | what was sent and what is still buffered are all that was written, through every partial send; it takes the channel's step for the send's answer |
| `TcpClients.Streams.ReceivePart` | network/tcpclient_fsm.cc:317-345 | before each receive at least 8 KiB are free, and the receive buffer is all that came in, in order; it takes the channel's step for the receive's answer |
| `ThreadLife.StepKeeps` | utils/thread.h:76-415 | every step of the owner and of the routines keeps the invariant |
| `ThreadLife.Always` | utils/thread.h:76-415 | so it holds in every run, with any number of restarts |
| `ThreadLife.StartAdds` | utils/thread.h:147-173 | a start while no routine runs adds exactly one, with its own id, if it succeeds, and none otherwise |
| `ThreadLife.JoinMarks` | utils/thread.h:277-294 | a join of a running routine, not from itself, marks it and waits for its id; any other changes nothing |
| `ThreadLife.DetachedExactly` | utils/thread.h:398-415 | a routine detaches itself exactly when the owner is not in `join`, and a join returns exactly when its routine has left |
| `ThreadLife.DeletedOnce` | utils/thread.h:76-92 | the count is the handle plus the routine not cleaned up; the reference is deleted exactly once, when both are gone |
| `ThreadLife.NotTouchedAfter` | utils/thread.h:140-173 | whoever is in a position to read or change the reference finds it not deleted |
| `ThreadLife.OnlyTouchingChanges` | utils/thread.h:60-173 | nothing else changes it |
| `ThreadLife.JoinedOrDetached` | utils/thread.h:398-415 | a routine that has left was joined or detached, never both, and one of them unless the owner is waiting for it |
| `ThreadLife.NeitherBefore` | utils/thread.h:398-415 | a routine still running is neither, and is the latest one |
| `ThreadLife.JoinWaitsForIt` | utils/thread.h:277-294 | the id that `join` reads again without the lock is still its routine's |
| `ThreadLife.AssertionsHold` | utils/thread.h:69-415 | the code's own assertions in `join`, `init`, `cleanup` and the destructor hold |
| `Threads.Thread.Start` | utils/thread.h:147-173 | takes the starting step, also when creation fails, and tells whether a start was attempted |
| `Threads.Thread.JoinThread` | utils/thread.h:277-291 | refuses its own thread, and marks a running routine as joined |
| `Threads.Thread.ReadThreadId` | utils/thread.h:289-289 | reads the id without the lock |
| `Threads.Thread.Drop` | utils/thread.h:140-145 | lets go of the handle's share |
| `Threads.Thread.RoutineInit` | utils/thread.h:372-396 | the routine has arrived |
| `Threads.Thread.RoutineCleanup` | utils/thread.h:398-415 | detaches exactly when nobody joins, and lets go of the routine's share |
| `Threads.Thread.RemoveRef` | utils/thread.h:76-92 | deletes exactly when the count reaches zero |
| `IfAddrsLayout.SlotsApart` | jni/ifaddrs.c:388-511 | the slots of different attributes are aligned and never overlap |
| `IfAddrsLayout.NameFits` | jni/ifaddrs.c:442-518 | a name and its terminator fit the room reserved for names |
| `IfAddrsLayout.DataFits` | jni/ifaddrs.c:319-378 | statistics fit the room reserved for them |
| `IfAddrsLayout.NameIsCopied` | jni/ifaddrs.c:514-518 | the stored name is the given one up to its first zero, terminated |
| `IfAddrsLayout.AddressPicked` | jni/ifaddrs.c:488-510 | the entry's address is the last local one, else the first address; there is one exactly when room for a netmask was made |
| `IfAddrsLayout.PointToPoint` | jni/ifaddrs.c:488-506 | on a point-to-point link local and destination address end up in their fields in whichever order they come |
| `IfAddrsLayout.BroadcastPicked` | jni/ifaddrs.c:488-510 | a broadcast address is the entry's exactly when no other comes behind it, nor an address that finds the entry's address set |
| `IfAddrsLayout.LinkLocalMeans` | jni/ifaddrs.c:480-486 | the scope is stored for fe80::/10 and for multicast addresses with scope 2 |
| `IfAddrsLayout.TopOnesBits` | jni/ifaddrs.c:534-537 | the mask's last byte |
| `IfAddrs.MakeSockaddr` | jni/ifaddrs.c:258-277 | family and address are at their places, and no byte outside the socket address changes |
| `IfAddrs.StoreAddress` | jni/ifaddrs.c:477-487 | with index, hardware type or scope where the family has them |
| `IfAddrs.SizeAddr` | jni/ifaddrs.c:418-448 | the sizing pass reserves exactly the slots, the names' room and at most one netmask |
| `IfAddrs.FillAddr` | jni/ifaddrs.c:458-522 | every address of the list is intact in its own slot when the filling pass ends, the name too, and nothing outside the reserved room was written |
| `IfAddrs.MakeMask` | jni/ifaddrs.c:526-537 | exactly min(prefix length, maximum) leading ones |
| `IfAddrs.PutMask` | jni/ifaddrs.c:539-540 | the netmask lies behind the last address and ends at the block's end, overlapping nothing |
| `IfAddrs.AddNetmask` | jni/ifaddrs.c:524-541 | there is a netmask exactly when room for one was reserved |
| `IfAddrs.InterpretAddr` | jni/ifaddrs.c:408-545 | the whole entry for an address message |
| `InterfaceLists.SizeLink` | jni/ifaddrs.c:300-325 | the sizing pass over a link message |
| `InterfaceLists.FillLinkAttr` | jni/ifaddrs.c:335-382 | one attribute's turn keeps everything stored before intact |
| `InterfaceLists.FillLink` | jni/ifaddrs.c:335-382 | names, addresses and statistics are intact in their rooms when the pass ends |
| `InterfaceLists.InterpretLink` | jni/ifaddrs.c:296-386 | the whole entry for a link message, with its index behind the header |
| `InterfaceLists.FindInterface` | jni/ifaddrs.c:388-406 | the first link with the index, looking at link entries only |
| `InterfaceLists.InterpretLinks` | jni/ifaddrs.c:547-578 | one entry for each link message heard before the end of its response, in order |
| `InterfaceLists.InterpretAddrs` | jni/ifaddrs.c:580-609 | one entry for each address message heard, behind the links, which stay |
| `InterfaceLists.HeardIs` | jni/ifaddrs.c:556-564 | a response is heard up to its first end |
| `InterfaceLists.EntriesFor` | jni/ifaddrs.c:547-609 | entries are made for exactly the link messages, and the address messages not of a link's family, that come before the end of their response |
| `InterfaceLists.GetIfAddrs` | jni/ifaddrs.c:611-651 | the list is the links' entries and then the addresses' entries, each attached to the first link with its index |

## Left out

- The JNI glue around the window fill, and packing its two results into one `jlong`: foreign calls.
- `FillWindow.ExecuteForCursorWindow`: a negative start position is taken as it is, as in the code; the clause on the required row is for positions from 0 on, which is what callers pass.
- SQL text, the tables built on sqlite, logging, files, zlib, the other curl files: no logic of the kind proved here.
- How long each `select` of the connect loop waits, the observer's notifications, and how often `_OnClose` is called (the path where a socket cannot be made non-blocking calls it twice).
- `MultiConnects.MultiConnect.TryConnect`: the pace is stated for runs in which the 64-bit clock does not wrap.
- `TcpClientFsm.ConnectCheckFSM.AfterReadWriteSelect`: the buffers are values here; `TcpClients.Streams` has them as objects, and both classes take the steps of `Channels`.
- `InetText.InetPton6`: every group is taken modulo 2^16; for one that is too large for a 16-bit number the C standard leaves the scanner's result open, and libraries differ when an `unsigned long` overflows.
- `InetText.FindRuns`: the marks are built in an array and handed on as a sequence.
- `remove_handler` and `clear` of the message queue, which delete messages under a running handler.
- `do_task` and `enter_loop` of the message queue, which never mark a message as being handled.
- `MsgQueues.MsgQueue.TakeNext`: how long the queue thread sleeps before it looks is not modelled.
- The destructor and the waiting for the exit flag in `quit`: thread shutdown around the loop.
- `AutoBuffers.AutoBuffer.Read`: only reading at the position; the variants with a position of their own copy from the buffer's position all the same.
- The read side of the TCP client, its connecting phase and its notifications other than OnWrote and OnAllWrote.
- `TcpClients.TcpClient.Write`: the returned number does not wrap at 32 bits, because 2^31 writes in one connection are not reached.
- `GetIfAddrs`: running out of memory, and sending and receiving netlink messages.
- `start_after`, `start_periodic`, `cancel_after`, `kill` and `outside_join` of the thread object: timers and signals beside the protocol proved.
- Read-only windows that another process fills: the contents are not this code's.
