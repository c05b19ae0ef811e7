# MegaMol core pieces, modelled in Dafny

This project models a handful of MegaMol and vislib components. Each one is a
small state machine or data codec:

- **ClusterDiscovery** (`ClusterDiscovery.dfy`): vislib's
  `ClusterDiscoveryService`. It keeps a table of peer nodes, each with a
  counter of the requests it may still leave unanswered. A response refreshes
  a peer or adds it. Each request round ages the table, so a silent peer is
  dropped and reported lost. Listeners are told about found and lost nodes and
  about user messages. A user message is validated and packed into the
  fixed-size datagram.
- **SimpleMessages** (`SimpleMessage.dfy`): vislib's `AbstractSimpleMessage`.
  One storage buffer holds an 8-byte header (message ID and body size, both
  little-endian 32-bit words) followed by the body. The class offers header
  and body setters, assignment and comparison.
- **MeshData** (`MeshData.dfy`): flowvis's `mesh_data_call`. It is an ordered
  map from data-set names to shared data sets. A null data set registers a
  name but never overwrites one.
- **Probes** (`Probes.dfy`): probe's `ProbeCollection`. It is an append-only
  list of float or int probes, read back with a typed getter that fails on the
  wrong alternative.
- **RemoteControl** (`RemoteService.dfy`): the frontend's remote service. It
  chooses the session role, queues head-node commands and sends them in order.
  It splits module-name lists and hands received Lua messages on.
- **ImplicitTopology** (`ImplicitTopology.dfy`): flowvis's `implicit_topology`
  module. It loads a binary vector-field grid and the convergence-structure
  file. It starts a computation, counts its partial results in the data hash,
  and publishes labels and distances through a `MeshDataCall`.
- **FboTransmitter** (`FboTransmitter.dfy`): remote's `FBOTransmitter2`. It
  stitches a rendered tile into the full-frame colour and depth buffers,
  numbers the frames and fills in the frame header. It lays out the outgoing
  message as header, colour bytes, depth bytes.
- **Wrappers** (`Wrappers.dfy`): the shared `Option`, `Result`, `Byte`, `Word`
  and `Float` types.

The model takes the source's own form:

- Objects that update their fields are classes with `modifies` frames.
- Fixed-size buffers (message storage, frame buffers, user data) are arrays.
- Loops are `while` loops with invariants, proved against specification
  functions on sequences.
- Pure helpers are functions with lemmas about them.

## Model

| member | source | states |
|---|---|---|
| ClusterDiscovery.UnionMemberSize | net/include/vislib/ClusterDiscoveryService.h:386-404 | The message union is MAX_USER_DATA bytes. The sender body (address plus a name of up to MAX_NAME_LEN) and the user data fill it exactly; the response address is smaller |
| ClusterDiscovery.UpsertKnownPeer | net/include/vislib/ClusterDiscoveryService.h:424-437 | Re-adding a known peer keeps the table size and every address. It resets that peer's counter to the maximum and changes nothing else. Unique addresses and bounded counters are preserved |
| ClusterDiscovery.UpsertUnknownPeer | net/include/vislib/ClusterDiscoveryService.h:424-437 | Adding an unknown peer appends it with the maximum counter after the unchanged table, and keeps the table valid |
| ClusterDiscovery.AgingPartition | net/include/vislib/ClusterDiscoveryService.h:487-499 | One request round splits the table: a peer is dropped exactly when its counter is zero, and every peer is either kept or dropped |
| ClusterDiscovery.AgedEntries | net/include/vislib/ClusterDiscoveryService.h:487-499 | Every peer with a positive counter survives with the counter decremented, and every survivor comes from such a peer |
| ClusterDiscovery.AgingKeepsTableValid | net/include/vislib/ClusterDiscoveryService.h:487-499 | Aging preserves unique response addresses and counters within [0, cntResponseChances] |
| ClusterDiscovery.AgingDecrements | net/include/vislib/ClusterDiscoveryService.h:487-499 | A peer with counter c > 0 is still known after aging, with counter c - 1 |
| ClusterDiscovery.AgingSpares | net/include/vislib/ClusterDiscoveryService.h:487-499 | A peer with a positive counter is not reported lost by aging |
| ClusterDiscovery.AgingEvicts | net/include/vislib/ClusterDiscoveryService.h:487-499 | A peer with counter zero is reported lost and is gone from the aged table |
| ClusterDiscovery.AgePeers | net/include/vislib/ClusterDiscoveryService.h:487-499 | The loop over the table yields exactly the aged table and, in table order, one implicit-loss notification per registered listener for each expired peer |
| ClusterDiscovery.SilentPeerLifetime | net/include/vislib/ClusterDiscoveryService.h:424-437 | With one response chance, a peer that is added and never refreshed survives the first request round. It is dropped and reported lost by the second |
| ClusterDiscovery.RemovedSingle | net/include/vislib/ClusterDiscoveryService.h:536-544 | Removing a peer whose address occurs once drops exactly that entry and keeps the others in order |
| ClusterDiscovery.RemovedAbsent | net/include/vislib/ClusterDiscoveryService.h:536-544 | Removing an unknown address leaves the table unchanged |
| ClusterDiscovery.WithoutListener | net/include/vislib/ClusterDiscoveryService.h:164-172 | After unregistering, the listener is gone and every other listener is kept; unregistering an absent listener changes nothing |
| ClusterDiscovery.DiscoveryService.constructor | net/include/vislib/ClusterDiscoveryService.h:62-102 | Stores the name, addresses, port, interval and response chances, with the defaults 10000 ms and 1 chance. It starts with no peers, listeners or events and a valid table |
| ClusterDiscovery.DiscoveryService.PeerAt | net/include/vislib/ClusterDiscoveryService.h:251-285 | Returns the idx-th peer's response address exactly when idx is in range, otherwise OutOfRange |
| ClusterDiscovery.DiscoveryService.AddListener | net/include/vislib/ClusterDiscoveryService.h:112-119 | Appends the listener to the registry |
| ClusterDiscovery.DiscoveryService.RemoveListener | net/include/vislib/ClusterDiscoveryService.h:164-172 | The registry becomes the old one without that listener (see WithoutListener) |
| ClusterDiscovery.DiscoveryService.PeerFromDiscoveryAddr | net/include/vislib/ClusterDiscoveryService.h:462-472 | Returns the first peer whose discovery service has that IP address (the port is ignored), or -1 exactly when there is none |
| ClusterDiscovery.DiscoveryService.PeerFromResponseAddr | net/include/vislib/ClusterDiscoveryService.h:474-485 | Returns the first peer with that response address, or -1 exactly when the address is unknown |
| ClusterDiscovery.DiscoveryService.AddPeerNode | net/include/vislib/ClusterDiscoveryService.h:424-437 | The table becomes the upserted table and stays valid. Only a new peer is reported found, to every listener |
| ClusterDiscovery.DiscoveryService.PrepareRequest | net/include/vislib/ClusterDiscoveryService.h:487-499 | The table becomes the aged table and stays valid. Each dropped peer is reported lost implicitly, in table order |
| ClusterDiscovery.DiscoveryService.RemovePeerNode | net/include/vislib/ClusterDiscoveryService.h:536-544 | The peer with that response address is removed and stays removed; a lost-explicitly event fires only if it was known |
| ClusterDiscovery.DiscoveryService.FireUserMessage | net/include/vislib/ClusterDiscoveryService.h:439-460 | A message from an unknown sender IP fires nothing. Otherwise every listener gets it, with the response address of the first matching peer |
| ClusterDiscovery.SilentPeerScenario | net/include/vislib/ClusterDiscoveryService.h:487-499 | With one listener and one response chance, a node added twice and then silent for two request rounds is gone, and the listener hears exactly "found" once and then "lost implicitly" once |
| ClusterDiscovery.DiscoveryService.PrepareUserMessage | net/include/vislib/ClusterDiscoveryService.h:501-534 | Fails with IllegalParam exactly when the type is below MSG_TYPE_USER, the body is null or the size exceeds MAX_USER_DATA. Otherwise the datagram carries the magic number, the type and the body bytes, zero-padded to MAX_USER_DATA |
| SimpleMessages.EncodeWord | net/src/AbstractSimpleMessage.cpp:80-87 | A header word is four bytes (round trip in BytesRoundTrip) |
| SimpleMessages.BytesRoundTrip | net/src/AbstractSimpleMessage.cpp:80-87 | Decoding four bytes and re-encoding them gives the same bytes; together with WordRoundTrip the word encoding is a bijection |
| SimpleMessages.EncodeHeader | net/src/AbstractSimpleMessage.cpp:80-87 | The header image is HEADER_SIZE bytes |
| SimpleMessages.HeaderRoundTrip | net/src/AbstractSimpleMessage.cpp:80-87 | Reading back a written header gives the same message ID and body size |
| SimpleMessages.HeaderBytesRoundTrip | net/src/AbstractSimpleMessage.cpp:80-87 | Any 8 header bytes are exactly the image of the header they decode to |
| SimpleMessages.SimpleMessage.Body | net/src/AbstractSimpleMessage.cpp:33-49 | The body is the bodySize bytes right after the header; header image plus body is the message prefix |
| SimpleMessages.SimpleMessage.constructor | net/src/AbstractSimpleMessage.cpp:149-168 | A new message has header (0, 0) and storage for at least the header |
| SimpleMessages.SimpleMessage.WriteHeader | net/src/AbstractSimpleMessage.cpp:80-87 | The first HEADER_SIZE bytes become the header image and the rest of the storage is untouched |
| SimpleMessages.SimpleMessage.AssertStorage | net/src/AbstractSimpleMessage.cpp:149-168 | Storage grows to hold the header plus bodySize bytes and keeps its content. It is reallocated only when too small, and the header is unchanged |
| SimpleMessages.SimpleMessage.SetHeader | net/src/AbstractSimpleMessage.cpp:80-87 | The header becomes h, storage is grown for its body size, and the old body bytes are kept |
| SimpleMessages.SimpleMessage.SetBody | net/src/AbstractSimpleMessage.cpp:56-74 | Corrected: with size 0, the body is the first bodySize bytes of the input. With size n > 0, n body bytes land right after the header, the header is unchanged, and the bytes beyond stay |
| SimpleMessages.SimpleMessage.Equals | net/src/AbstractSimpleMessage.cpp:111-122 | Equal exactly when the headers and the bodies are equal |
| SimpleMessages.SimpleMessage.Assign | net/src/AbstractSimpleMessage.cpp:93-105 | Corrected: afterwards header and body equal rhs's. rhs is untouched, and self-assignment (or shared storage) changes nothing |
| SimpleMessages.CopyPrefix | net/src/AbstractSimpleMessage.cpp:100-101 | memcpy between distinct buffers: the first size bytes become the source's and the rest of the destination is unchanged |
| SimpleMessages.SetBodyOverwritesHeader | net/src/AbstractSimpleMessage.cpp:68-73 | As written, an 8-byte 0xFF body set on an empty message turns the header into (0xFFFFFFFF, 0xFFFFFFFF) |
| SimpleMessages.AssignTruncatesBody | net/src/AbstractSimpleMessage.cpp:100-101 | As written, assigning a message with a one-byte body b to an empty message copies only the header: the result announces rhs's body size but its body byte is whatever the grown storage held, and differs from b whenever that byte does |
| MeshData.StringLessIrreflexive | plugins/flowvis/src/mesh_data_call.h:97 | std::string's order never puts a name before itself |
| MeshData.StringLessTransitive | plugins/flowvis/src/mesh_data_call.h:97 | std::string's order is transitive |
| MeshData.StringLessTotal | plugins/flowvis/src/mesh_data_call.h:97 | Any two distinct names are ordered one way or the other |
| MeshData.Least | plugins/flowvis/src/mesh_data_call.cpp:30-40 | Returns the key that std::map visits first: a member of the set below every other member |
| MeshData.DataSet.constructor | plugins/flowvis/src/mesh_data_call.h:32-39 | A data set holds the transfer function, its dirty flag, the value range and the data, as given |
| MeshData.Lookup | plugins/flowvis/src/mesh_data_call.cpp:20-28 | A present name yields the entry stored under it, an absent name yields null, and a non-null result is always a stored entry |
| MeshData.StoredIsFound | plugins/flowvis/src/mesh_data_call.cpp:12-28 | A non-null data set that was set is what get_data returns |
| MeshData.NullNeverOverwrites | plugins/flowvis/src/mesh_data_call.cpp:12-18 | Setting null under an existing name leaves the map unchanged |
| MeshData.NullRegistersName | plugins/flowvis/src/mesh_data_call.cpp:12-18 | Setting null under a new name adds just that name, with no data |
| MeshData.StoredKeepsOthers | plugins/flowvis/src/mesh_data_call.cpp:12-28 | Setting one name changes neither the presence nor the data of any other name |
| MeshData.MeshDataCall.constructor | plugins/flowvis/src/mesh_data_call.h:97 | A new call has no data sets and hash 0 |
| MeshData.MeshDataCall.SetData | plugins/flowvis/src/mesh_data_call.cpp:12-18 | The map becomes the stored map: set unless the name exists and the data is null |
| MeshData.MeshDataCall.GetData | plugins/flowvis/src/mesh_data_call.cpp:20-28 | Returns the lookup of the name in the map |
| MeshData.MeshDataCall.GetDataSets | plugins/flowvis/src/mesh_data_call.cpp:30-40 | Returns exactly the stored names, strictly ascending in std::string order |
| Probes.MakeProbe | plugins/probe/src/ProbeCollection.h:39-47 | The probe built for an alternative holds that alternative and those fields |
| Probes.ProbeCollection.constructor | plugins/probe/src/ProbeCollection.h:52 | A new collection is empty |
| Probes.ProbeCollection.AddProbe | plugins/probe/src/ProbeCollection.h:55 | Appends the probe |
| Probes.ProbeCollection.GetProbe | plugins/probe/src/ProbeCollection.h:57 | Succeeds exactly when the idx-th probe holds the requested alternative, and then returns its fields; otherwise fails with bad_variant_access |
| Probes.AddThenGet | plugins/probe/src/ProbeCollection.h:55-57 | A probe added and read back with its own alternative is returned intact. Read with the other alternative it fails, and earlier probes are unchanged |
| RemoteControl.HandleRemoteSessionConfig | frontend/services/remote_service/Remote_Service.cpp:43-76 | Exits with status 1 exactly when an MPI render node is asked for in a build without MPI. Otherwise, when some role is requested, the role becomes the requested one of highest precedence (head, then render, then MPI render node: the last flag checked wins) and the returned name is that role's; when none is requested, the configured role is kept and the name is empty. The other settings are copied |
| RemoteControl.HighestRequestedUnique | frontend/services/remote_service/Remote_Service.cpp:43-63 | At most one requested role has the highest precedence, so the role HandleRemoteSessionConfig chooses is fixed by the flags alone |
| RemoteControl.CommandOf | frontend/services/remote_service/Remote_Service.cpp:277-311 | An in-range command number names the command with that number |
| RemoteControl.CommandCodeRoundTrip | frontend/services/remote_service/Remote_Service.cpp:277-311 | Every command's number is at most Count and maps back to the command |
| RemoteControl.SkipDelimiters | frontend/services/remote_service/Remote_Service.cpp:241-255 | Returns the first position at or after i that is not a comma or space |
| RemoteControl.NextDelimiter | frontend/services/remote_service/Remote_Service.cpp:241-255 | Returns the first position at or after i that is a comma or space, or the end |
| RemoteControl.TokensAreNames | frontend/services/remote_service/Remote_Service.cpp:241-255 | Every module name produced is non-empty and contains no comma or space |
| RemoteControl.TokensKeepText | frontend/services/remote_service/Remote_Service.cpp:241-255 | The names, concatenated, are exactly the input without its commas and spaces, so no character is lost or reordered |
| RemoteControl.NoTokensIffAllDelimiters | frontend/services/remote_service/Remote_Service.cpp:241-255 | The list is empty exactly when the input consists of commas and spaces only |
| RemoteControl.SplitModuleNames | frontend/services/remote_service/Remote_Service.cpp:241-255 | The loop returns the token list of the specification |
| RemoteControl.ParamsToSend | frontend/services/remote_service/Remote_Service.cpp:256-272 | The parameter message is all parameters for "all", otherwise the parameters of each module named in the list, appended in list order |
| RemoteControl.RemoteService.constructor | frontend/services/remote_service/Remote_Service.cpp:94-96 | Starts with an empty command queue, parameter syncing off for "all" modules, no Lua command, no head node and nothing sent |
| RemoteControl.RemoteService.HeadSendMessage | frontend/services/remote_service/Remote_Service.cpp:417-421 | Appends the message to what the head node has sent |
| RemoteControl.RemoteService.StartHeadnode | frontend/services/remote_service/Remote_Service.cpp:374-393 | Starting selects head-node work and succeeds exactly when the server starts. Shutting down always succeeds, stops the head node and sends "mmQuit()" only when configured to |
| RemoteControl.RemoteService.AddHeadnodeRemoteCommand | frontend/services/remote_service/Remote_Service.cpp:277-311 | A number above Count changes nothing. Any other command is queued after applying its immediate effect (start, close, param syncing, module list, Lua command) and leaves the other state alone |
| RemoteControl.RemoteService.SendQueued | frontend/services/remote_service/Remote_Service.cpp:225-238 | Sends exactly the messages of the queued ClearGraph, SendGraph and SendLuaCommand entries, in queue order, and nothing for the other commands |
| RemoteControl.RemoteService.DoHeadnodeThings | frontend/services/remote_service/Remote_Service.cpp:222-275 | Sends one message per queued ClearGraph, SendGraph or SendLuaCommand, in queue order, then empties the queue. With syncing on it then sends the parameters of all modules or of each listed module |
| RemoteControl.ClearThenLua | frontend/services/remote_service/Remote_Service.cpp:225-238 | A queue of ClearGraph then SendLuaCommand sends "mmClearGraph()" and then the Lua command, in that order |
| RemoteControl.RemoteService.ExecuteMessage | frontend/services/remote_service/Remote_Service.cpp:423-438 | An empty message is ignored; any other is executed, once, in arrival order |
| RemoteControl.QueueScenario | frontend/services/remote_service/Remote_Service.cpp:222-238 | Queueing ClearGraph, a Lua command and an out-of-range number, then draining the queue, sends exactly "mmClearGraph()" and then the Lua command, and leaves the queue empty |
| ImplicitTopology.HeaderError | plugins/flowvis/src/implicit_topology.cpp:104-124 | No error exactly when the file declares dimension 2 and 2 components. A components error is reported only after the dimension check passed |
| ImplicitTopology.GridCell | plugins/flowvis/src/implicit_topology.cpp:146-164 | The flat index y * x_num + x lies in the grid and names column x of row y |
| ImplicitTopology.LoadVectorField | plugins/flowvis/src/implicit_topology.cpp:104-164 | Fails exactly on a header error, with that error. Otherwise it reads extents and sizes from the header, gives every grid point its column and row, and reads each point's vector from the file in order |
| ImplicitTopology.LoadRow | plugins/flowvis/src/implicit_topology.cpp:148-163 | The inner loop fills one more grid row: each point's position names its column and row, and its vector comes from the file |
| ImplicitTopology.FlatToGrid | plugins/flowvis/src/implicit_topology.cpp:146-164 | A field filled by flat index has, at cell (x, y), the position of column x and row y |
| ImplicitTopology.ParseFromWellFormed | plugins/flowvis/src/implicit_topology.cpp:168-220 | Parsing from structure i on keeps every id list strictly ascending and below the structure count |
| ImplicitTopology.ParseWellFormed | plugins/flowvis/src/implicit_topology.cpp:168-220 | A parsed structure file tags each point and line with its structure's index, in ascending order and below the declared count |
| ImplicitTopology.ParseFromFailsOnType | plugins/flowvis/src/implicit_topology.cpp:189-219 | Parsing succeeds exactly when every structure type it reads is point (0) or line (1), and any failure is UnknownStructureType |
| ImplicitTopology.ParseStructures | plugins/flowvis/src/implicit_topology.cpp:168-220 | The loop returns the parse of the file, well formed when it succeeds |
| ImplicitTopology.HashCountsResults | plugins/flowvis/src/implicit_topology.cpp:249-281 | After the start (hash 1), k unfinished results leave the hash at 1 + k |
| ImplicitTopology.HashStopsWhenFinished | plugins/flowvis/src/implicit_topology.cpp:249-281 | Once a finished result arrives the hash is 0 and stays 0 |
| ImplicitTopology.PushTransferFunction | plugins/flowvis/src/implicit_topology.cpp:386-409 | The data set under the name, if any, takes the transfer function and is marked dirty. Every other data set is unchanged |
| ImplicitTopology.ImplicitTopologyModule.constructor | plugins/flowvis/src/implicit_topology.cpp:32-62 | The module starts with the given transfer functions and dirty flags, no output change, no labels or distances and no computation |
| ImplicitTopology.ImplicitTopologyModule.Reload | plugins/flowvis/src/implicit_topology.cpp:84-247 | Resets both path flags and terminates an earlier computation. It succeeds exactly when both files open, the header is valid and the structures parse; then the loaded field and structures start a computation with hash 1. On failure the hash is 0 |
| ImplicitTopology.ImplicitTopologyModule.UpdateOutput | plugins/flowvis/src/implicit_topology.cpp:249-281 | With a running computation, a non-zero hash and a ready result, stores its triangles, labels and distances and moves the hash on (0 when finished). Otherwise nothing changes |
| ImplicitTopology.ImplicitTopologyModule.GetTriangleDataCallback | plugins/flowvis/src/implicit_topology.cpp:78-284 | Reloads when a path changed and fails exactly when that reload fails (hash 0). Otherwise the hash is the update's next hash from 1 or from its old value |
| ImplicitTopology.ImplicitTopologyModule.GetTriangleExtentCallback | plugins/flowvis/src/implicit_topology.cpp:286-343 | With a clean path nothing changes. An unopenable file resets hash and flag and fails. Otherwise it fails exactly on a header error and sets the bounding rectangle from the header extents |
| ImplicitTopology.ImplicitTopologyModule.PublishOutput | plugins/flowvis/src/implicit_topology.cpp:350-384 | After an output change it stores fresh "labels" and "distances" data sets (data, range, clean transfer function) and bumps the hash by one. Otherwise the call is unchanged; other names are never touched |
| ImplicitTopology.ImplicitTopologyModule.GetDataDataCallback | plugins/flowvis/src/implicit_topology.cpp:345-412 | After an output change: fresh, distinct "labels" and "distances" data sets with the module's data and ranges, and the hash bumped by one; otherwise the map and hash are unchanged. Then each dirty transfer function is pushed into its data set and marked dirty there. All module flags end clear. Other names keep their entries, existing data sets keep their data and range, and data sets other than the two keep their transfer function and flag |
| ImplicitTopology.ImplicitTopologyModule.GetDataExtentCallback | plugins/flowvis/src/implicit_topology.cpp:414-423 | Registers "labels" and "distances" without replacing data already stored under them |
| FboTransmitter.RowInBounds | plugins/remote/src/FBOTransmitter2.cpp:156-176 | For a tile inside the frame, every tile row lands inside the frame buffer and inside the tile buffer |
| FboTransmitter.RowsDisjoint | plugins/remote/src/FBOTransmitter2.cpp:156-176 | Distinct tile rows land on disjoint ranges of the frame buffer, so later rows never overwrite earlier ones |
| FboTransmitter.CopyBytes | plugins/remote/src/FBOTransmitter2.cpp:153-176 | memcpy: the count bytes from the source land at the destination offset and every other byte is unchanged |
| FboTransmitter.StitchTile | plugins/remote/src/FBOTransmitter2.cpp:156-176 | Every byte of tile row i lands at row yOff + i, column xOff of the frame; frame bytes outside the tile are unchanged |
| FboTransmitter.CopyRow | plugins/remote/src/FBOTransmitter2.cpp:169-174 | Copying one more tile row keeps every earlier row in place, puts the new row at its offset, and leaves every byte outside those rows unchanged |
| FboTransmitter.AssembleFrame | plugins/remote/src/FBOTransmitter2.cpp:149-176 | The frame buffer is width x height elements. For a full-frame viewport it holds the read pixels; otherwise each tile row is at its offset and every other byte is zero |
| FboTransmitter.ZeroedStitch | plugins/remote/src/FBOTransmitter2.cpp:149-176 | Stitching over a zero-initialised buffer leaves zeros everywhere outside the tile |
| FboTransmitter.ComposeMessage | plugins/remote/src/FBOTransmitter2.cpp:364-374 | The message is the header, then the compressed colour bytes, then the compressed depth bytes |
| FboTransmitter.SplitMessage | plugins/remote/src/FBOTransmitter2.cpp:361-374 | A message splits exactly when its length is the sum of the three sizes, into parts that concatenate back to it |
| FboTransmitter.ComposeSplit | plugins/remote/src/FBOTransmitter2.cpp:344-374 | Splitting a composed message by the sizes in its header gives back the header, colour and depth parts |
| FboTransmitter.FboTransmitter2.constructor | plugins/remote/src/FBOTransmitter2.cpp:31-58 | Starts at frame 0, not stopped, not connected, with empty buffers |
| FboTransmitter.FboTransmitter2.InitThreads | plugins/remote/src/FBOTransmitter2.cpp:614-727 | Leaves the transmitter connected; the stop flag is cleared only when it was not connected |
| FboTransmitter.FboTransmitter2.ShutdownThreads | plugins/remote/src/FBOTransmitter2.cpp:730-746 | Stops the threads and disconnects |
| FboTransmitter.FboTransmitter2.Reconnect | plugins/remote/src/FBOTransmitter2.cpp:606-611 | Shuts down and initialises again: connected and running |
| FboTransmitter.FboTransmitter2.AfterRender | plugins/remote/src/FBOTransmitter2.cpp:114-285 | Numbers the frame with the old id and increments it. Both areas become the full screen and the buffers are sized to the frame. A full-frame viewport copies the pixels; a tile is stitched at its offset |
| FboTransmitter.FboTransmitter2.TransmitFrame | plugins/remote/src/FBOTransmitter2.cpp:344-374 | Records the compressed sizes in the header, and the message it builds splits back into that header's bytes, the colour bytes and the depth bytes |
| FboTransmitter.ConsecutiveFrames | plugins/remote/src/FBOTransmitter2.cpp:274 | Two rendered frames advance the frame id by two, each frame numbered once |

## Left out

- Threads, sockets and locking. This covers the discovery service's sender and receiver threads, its critical section, Start/Stop, the receiver's message dispatch, the FBO transmitter's transmitter thread and its ZeroMQ/IceT/MPI transport. Every operation is modelled as one sequential step on the object.
- ClusterDiscovery.DiscoveryService.RemovePeerNode: fires the explicit-loss event only when the node is in the table. The header comment states the event without a condition and ClusterDiscoveryService.cpp is not part of this model, so removing an unknown node is taken to report nothing.
- Constant values defined in ClusterDiscoveryService.cpp, which is not part of this model. DEFAULT_PORT, MAGIC_NUMBER and the message-type numbers are left unspecified.
- The discovery service's IP addresses are modelled as numbers and the sockaddr byte layout is left out. Listener callbacks are modelled as an event log.
- The content of a message body across a reallocation. The derived class's storage policy is not part of this model; the storage is modelled as growing and keeping its bytes.
- GetMessageSize is taken to be the header size plus the body size; AbstractSimpleMessage.h is not part of this model.
- RemoteControl.RemoteService.constructor: the constructor body is empty; the initial values (empty queue, parameter syncing off, module list "all", empty Lua command, no head node) are the member initialisers of Remote_Service.hpp, which is not part of this model, and are assumed.
- RemoteControl.CommandOf: assumes the declaration order of HeadNodeRemoteControl::Command, since Remote_Service.hpp is not part of this model.
- The remote service's init() wiring, the Lua interpreter, logging of results, the ZeroMQ and MPI transport, the ImGui window and the disabled `#if (0)` block. The graph and parameter serialisations are parameters of DoHeadnodeThings.
- OpenGL reads, snappy compression, IceT compositing, the connection handshake, extractMetaData/extractViewport, swapBuffers and the read/send double buffering. Colour and depth pixels, compressed bytes and the viewport are inputs.
- FboTransmitter.FboTransmitter2.TransmitFrame: the byte image of fbo_msg_header_t is a parameter (`headerBytes`), since its memory layout is compiler-defined.
- StitchTile, CopyRow, AssembleFrame and AfterRender require the tile to lie inside the frame, because memcpy outside the buffers is undefined behaviour.
- FboTransmitter.StitchTile: the source copies a colour row and a depth row in each iteration of one loop; the model stitches each buffer with its own loop, which writes the same bytes because the two buffers are distinct.
- Only the build without MPI is modelled for the FBO transmitter.
- FboTransmitter.AssembleFrame: the buffer sizes width * height * element size and the row offsets element size * (yoff * width + xoff + i * width) are C++ `int` products in the source; the model computes them exactly, so signed overflow for frames of 2^31 bytes or more is not modelled. The same holds for StitchTile, CopyRow and AfterRender.
- Floating-point arithmetic. The vector-field file is a sequence of 32-bit words and floats are kept as bit patterns. Grid positions are named by column and row instead of the float coordinates xMin + x * (xMax - xMin) / (xNum - 1). The minimum and maximum of labels and distances are parameters of PublishOutput.
- ImplicitTopology.ImplicitTopologyModule.PublishOutput: requires non-empty labels and distances when the output changed. Before the first result arrives the source dereferences a null shared_ptr, and for an empty result std::minmax_element returns end iterators that are dereferenced; both are undefined behaviour, which the model does not represent. The same precondition is on GetDataDataCallback.
- Stream failures: a read past the end of a file yields 0, and an unopenable file is `None`.
- ImplicitTopology.LoadVectorField: the 32-bit wrap-around of x_num * y_num in the size computation is not modelled; the product is exact.
- triangle_mesh_call is not part of this model; TriangleMeshCall holds only the hash, triangles and bounding rectangle the module writes.
- The labels shared through shared_ptr are copied as values into the data sets.
- ImplicitTopology.ImplicitTopologyModule.constructor: whether a fresh parameter reports itself dirty belongs to the parameter classes, so the initial dirtiness is a parameter.
- The computation itself (implicit_topology_computation.cpp) is not part of this model; its results arrive as values, and the one-millisecond wait for them is an `Option`.

## Findings

| source | as written | input that shows it | evidently intended | confidence | as-written member | corrected member |
|---|---|---|---|---|---|---|
| net/src/AbstractSimpleMessage.cpp:68-73 | With a non-zero size, SetBody copies the body to the pointer assertStorage returns, which is the start of the storage, so the body overwrites the header | Set an 8-byte body of 0xFF on a message with header (0, 0); the header becomes (0xFFFFFFFF, 0xFFFFFFFF) | Copy the body to the position right after the header | not executed | SimpleMessages.SetBodyOverwritesHeader | SimpleMessages.SimpleMessage.SetBody |
| net/src/AbstractSimpleMessage.cpp:100-101 | operator= copies this->GetMessageSize() bytes, the target's old size, after growing the storage for rhs | Assign a message with header (0, 1) and body [b] to a message with header (0, 0); the result has rhs's header, but the body is not copied: its byte is whatever the grown storage held, not b | Copy rhs's message size, so that the target equals rhs | not executed | SimpleMessages.AssignTruncatesBody | SimpleMessages.SimpleMessage.Assign |
