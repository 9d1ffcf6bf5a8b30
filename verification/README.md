# DICOM-over-websocket service: a Dafny model

This project models the core of a small service that lets a browser find DICOM series on disk
and fetch pixel data over a websocket. It covers three pieces:

- **The data service** in `dicom_server.py`:
  - the never-raising DICOM probe;
  - the series indexer, which walks a folder and builds one record per usable file with defaults for missing tags;
  - the stable sort on `(protocol_name, scan_time)`;
  - pixel extraction, which flattens row-major and truncates toward zero;
  - the message handler, which turns each inbound message into one or two outbound frames and survives every request-level error.
- **The server object** in `DICOMServer.py`, as a sequential state machine: its shutdown flag, event loop, stop future, server thread, listener and registry of connected clients.
- **The browser client** in `src/App.js`: the requests it sends, its empty-folder guard, and how it folds a scan reply into protocol → paths groups.

Modules: `Wrappers` (Option/Result), `StringOrder` (Python's `<` on `str`), `SeriesIndex`,
`PixelData`, `Protocol`, `Lifecycle` and `Client`.

The file system is an input. A `Disk` maps each folder to the entries `os.walk` yields, in
walk order, and each path to a `FileEntry`. A `FileEntry` is either `NotDicom(readError)` or
`Dicom(Dataset(...))` with optional ProtocolName and SOPInstanceUID, plus the pixel array or the
error reading it raises. ImagePositionPatient and ImageOrientationPatient are each a `DsTag`:
absent, present without a value (pydicom reads `None`), single-valued (a bare number) or
multi-valued (a list). Only a multi-valued tag can be iterated. An exception becomes a `Failure` that
carries its message text. The binary frame is represented by the integer list passed to
`msgpack.packb`.

Three behaviours of the code shape the model:

- Scanning a missing folder is not an error. `os.walk` yields nothing, so the reply is a success with an empty list.
- The missing-field errors read "No DICOM folder provided" and "No file path provided".
- Text that does not decode as JSON gets an `{"error": ...}` reply from the data service. The echo handler in `DICOMServer.py` logs it and drops it.

## Model

| member | source | states |
|---|---|---|
| SeriesIndex.IsDicomFile | dicom_server.py:50-66 | the probe never fails and is true exactly when reading the file succeeds |
| SeriesIndex.ReadRecord | dicom_server.py:75-96 | a file yields a record iff it reads as DICOM and both position and orientation are multi-valued, since an absent, empty or single-valued tag makes the list comprehension raise; ProtocolName defaults to "Unknown", SOPInstanceUID to "000000"; path, position and orientation are copied |
| Protocol.Walk | dicom_server.py:73 | the walk of a folder is the disk's listing for it, and nothing for a folder that does not exist |
| SeriesIndex.Collect | dicom_server.py:71-96 | at most one record per walked file, and every record is read from some walked file |
| SeriesIndex.CollectMembers | dicom_server.py:73-96 | a record is collected iff some walked file reads as that record; skipped files do not stop the walk |
| SeriesIndex.CollectCount | dicom_server.py:71-96 | exactly one record per usable file, none added or duplicated |
| SeriesIndex.KeyLess | dicom_server.py:99 | the sort key compares protocol names first, and scan times only between records of the same protocol, both in Python string order |
| SeriesIndex.Sort | dicom_server.py:99 | the sort returns a permutation of its input |
| SeriesIndex.Insert | dicom_server.py:99 | one insertion step adds exactly the inserted record: the result is the input plus that record, as a multiset |
| SeriesIndex.SortStable | dicom_server.py:99 | for every key, the records with that key keep their input order |
| SeriesIndex.StableSortUnique | dicom_server.py:99 | two sequences that are sorted and agree on the order within every key are equal, so any stable sort gives this output |
| SeriesIndex.ParseAndSort | dicom_server.py:70-101 | the index holds exactly the collected records, each as often as collected |
| SeriesIndex.ParseAndSortOrdered | dicom_server.py:98-101 | the index is ascending by (protocol_name, scan_time) and is a permutation of the collected records |
| SeriesIndex.ParseAndSortStable | dicom_server.py:99 | records with equal keys appear in walk order |
| SeriesIndex.ParseAndSortUnique | dicom_server.py:99 | any sorted sequence that keeps walk order within keys is the index itself |
| SeriesIndex.ParseAndSortContents | dicom_server.py:70-101 | index size equals the number of usable files; membership is exactly "read from some walked file"; a walk without usable files gives the empty list |
| SeriesIndex.ScenarioTwoInstances | dicom_server.py:99 | two CT files with instances "002" then "001" are listed "001" first |
| StringOrder.LessTransitive | dicom_server.py:99 | Python string order is transitive |
| StringOrder.LessTrichotomy | dicom_server.py:99 | any two strings are ordered one way or the other, or are equal |
| PixelData.Trunc | dicom_server.py:35 | `astype(int)` truncates toward zero: the result lies within one of the sample, on the zero side |
| PixelData.Flatten | dicom_server.py:35 | the flattened list has rows × cols entries |
| PixelData.FlattenRowMajor | dicom_server.py:35 | sample (i, j) lands at position i·cols + j, truncated |
| PixelData.FlattenIsRowMajor | dicom_server.py:35 | entry k of the list is sample (k / cols, k mod cols), truncated |
| PixelData.TagList | dicom_server.py:23-24 | `list(...)` of a tag gives its values iff it is multi-valued; an absent tag raises AttributeError, an empty one "'NoneType' object is not iterable", a single-valued one "'DSfloat' object is not iterable" |
| PixelData.GetPixelData | dicom_server.py:10-48 | succeeds iff the file exists, reads, has pixel data, and multi-valued position and orientation; the error is the first of missing file (whose text shows the path as Python's `repr`), read error, pixel error, position error, orientation error, with an absent position or orientation giving its AttributeError text; the metadata holds origin, orientation and shape [rows, cols] and no pixels; the sample count is the product of the shape; samples are row-major and truncated |
| PixelData.ReprQuote | dicom_server.py:21 | the missing-file message quotes the path with double quotes exactly when it holds a single quote and no double quote |
| PixelData.ReprChar | dicom_server.py:21 | inside the quotes a character stands for itself exactly when it is not the quote, not a backslash and not a control character |
| PixelData.ReprRoundTrip | dicom_server.py:21 | reading the escapes between the quotes back gives the path, so the message names the path unambiguously |
| PixelData.ReprPlain | dicom_server.py:21 | a path with no quote, backslash or control character appears between single quotes unchanged |
| PixelData.ReprWindowsPath | dicom_server.py:21 | a Windows path appears with every backslash doubled |
| PixelData.ReprApostrophe | dicom_server.py:21 | a path holding an apostrophe appears between double quotes |
| PixelData.ScenarioTruncation | dicom_server.py:35-44 | [[1.9,2.1,3.0],[4.4,5.5,6.6]] gives shape [2,3] and samples [1..6]; -1.5 truncates to -1 |
| Protocol.Handle | dicom_server.py:104-154 | every message gets one or two frames, a text frame first; a binary frame is sent exactly after a metadata frame; bad JSON gets one error frame with the decoder's message |
| Protocol.DispatchErrors | dicom_server.py:110-152 | a missing or empty dicom_folder, a missing or empty file_path, and any other or absent action each get exactly one error frame with the code's text |
| Protocol.ScanReplyOrdered | dicom_server.py:110-133 | a scan request gets one text frame whose records are sorted and are exactly the folder's usable files |
| Protocol.ScanMissingFolder | dicom_server.py:73-101 | a scan of a folder that does not exist is answered with a success holding an empty list, not an error |
| Protocol.PixelReplyFrames | dicom_server.py:135-154 | a pixel request gets the metadata frame then the binary frame, with sample count = product of shape, or else one error frame |
| Protocol.Serve | dicom_server.py:105-154 | the loop sends between one and two frames per message, and its first frame is the text answer to the first message |
| Protocol.ServeAppend | dicom_server.py:105-154 | the loop's answer to later messages does not depend on earlier ones, errors included |
| Protocol.ServeCorrelates | dicom_server.py:105-154 | the frame stream can be cut back into exactly one response per request, in order |
| Protocol.ServeOneTextEach | dicom_server.py:105-154 | the loop sends exactly one text frame per message |
| Protocol.ErrorThenSuccess | dicom_server.py:110-133 | after a request missing its folder, the next request on the connection is still answered; a bogus action gets "Invalid action" |
| Lifecycle.Init | DICOMServer.py:14-21 | a fresh server has no clients, is not shutting down, and has no loop, future, thread or listener; it is a valid state |
| Lifecycle.Start | DICOMServer.py:54-81 | after start the loop exists and the future is pending; if `serve` binds, the thread runs and the listener accepts; if it raises, the thread has ended with no listener and the future still pending; clients unchanged |
| Lifecycle.StopAsync | DICOMServer.py:106-109 | the future is resolved only if it exists and is pending; nothing else changes |
| Lifecycle.ServerExits | DICOMServer.py:50-68 | main closes the listener and ends only once the stop future has resolved; closing the listener ends every connection handler, whose `finally` unregisters it, so no client is left |
| Lifecycle.Stop | DICOMServer.py:50-103 | when already shutting down, stop returns with nothing changed; otherwise it sets the flag in every outcome; the future is resolved iff a loop exists, the future is pending and the thread still runs the loop; stopping a running server returns with no client left, and otherwise the clients are unchanged |
| Lifecycle.StopIdempotent | DICOMServer.py:85-88 | a second stop returns and changes nothing |
| Lifecycle.StopFromRunning | DICOMServer.py:50-103 | from a reachable state stop leaves a reachable state; it waits forever exactly when it is the first stop after a failed bind; on a running server it returns with the listener closed, the thread finished and no client registered |
| Lifecycle.StopRaisesOnlyUnstarted | DICOMServer.py:83-103 | from a reachable state stop raises iff the server was never started |
| Lifecycle.StopUnstartedRaises | DICOMServer.py:102 | stop right after construction raises AttributeError on `is_alive`, with the flag already set |
| Lifecycle.StopAfterFailedStartBlocks | DICOMServer.py:92-95 | stop after a start whose bind failed schedules the stop coroutine on the stopped loop and waits forever in `.result()` |
| Lifecycle.StopGuarded | DICOMServer.py:50-103 | stop with None checks that schedules the stop coroutine only while the loop runs agrees with stop wherever `stop()` as written neither trips over None nor waits on a stopped loop; stopping a running server leaves no client |
| Lifecycle.StopGuardedReturns | DICOMServer.py:83-103 | the guarded stop always returns from a reachable state, including an unstarted server and a failed start, and stays idempotent |
| Lifecycle.Register | DICOMServer.py:44 | adding a connection changes only the client set, by that connection |
| Lifecycle.Unregister | DICOMServer.py:50-51 | removing a present connection changes only the client set, by that connection |
| Lifecycle.HandleJson | DICOMServer.py:32-38 | given what `json.loads` did, nothing escapes when it returned or raised a `JSONDecodeError` (or a subclass); any other exception escapes unchanged |
| Lifecycle.HandleJsonEscapes | DICOMServer.py:32-38 | non-JSON text is swallowed; a Unicode decode error on bytes and a recursion error escape, and both are an `Exception` |
| Lifecycle.Handled | DICOMServer.py:45-49 | the loop handles every message up to the first one whose error escapes, and no further |
| Lifecycle.Session | DICOMServer.py:43-51 | the handler handles `Handled` messages; it ends closed iff all messages were handled, otherwise with the escaping error, logged iff it is an `Exception`; the connection is unregistered afterwards |
| Lifecycle.SessionRestores | DICOMServer.py:43-51 | a connection is registered during its handler, and afterwards the server is exactly as before, error or not |
| Lifecycle.RegistryInterleaves | DICOMServer.py:43-51 | one connection leaving while another is inside leaves only the other registered |
| Client.SendQuery | src/App.js:31-50 | an empty folder gives "Please enter a DICOM folder path." and no request; otherwise the request is exactly {action: "get_sorted_dicom", dicom_folder} |
| Client.FileClickRequest | src/App.js:97-102 | the pixel request is exactly {action: "get_dicom_pixel_data", file_path} |
| Client.Group | src/App.js:58-65 | the corrected reducer's keys are exactly the protocols of the files |
| Client.GroupIsFilter | src/App.js:58-65 | a protocol is a key iff some file has it; its list is the paths of exactly its files, in list order, and is never empty |
| Client.GroupTotal | src/App.js:58-65 | the groups hold as many paths as there are files |
| Client.GroupScanOrder | src/App.js:58-65 | given the server's sort, the files of one protocol are in ascending scan_time order |
| Client.OnScanMessage | src/App.js:53-75 | a success reply sets the groups iff no protocol name is inherited by a plain object, and the groups are then the corrected reducer's; otherwise the handler throws "push is not a function" before `setResponse`, `setLoading(false)` and `ws.close()`; an error reply sets its text or "Failed to fetch data" when empty; a metadata reply throws |
| Client.QueryRoundTrip | src/App.js:31-75 | a non-empty folder is sent and answered with one frame holding the sorted index; without inherited protocol names it is grouped into per-protocol path lists in index order, and with one the handler throws |
| Client.FileClickAnswered | src/App.js:88-103 | a file click gets the metadata and binary frames or one error frame; an empty path gets "No file path provided" |
| Client.GroupAsWrittenThrows | src/App.js:58-65 | the reducer as written throws for a protocol named "constructor" |
| Client.GroupAsWritten | src/App.js:58-65 | the reducer as written throws "push is not a function" iff some file's protocol name is inherited by a plain object, and otherwise builds exactly the corrected reducer's groups |

## Left out

- pydicom, `os.walk` and `json.loads` are inputs. A walked file's entry is its parsed dataset. The second read in the indexing loop is taken to give the same result as the probe.
- Exception texts from pydicom and the JSON decoder are carried as opaque strings in the input. Python's own texts (`AttributeError`, `FileNotFoundError`, `TypeError`) are written out in their usual form.
- The byte layout of msgpack is not modelled. The binary frame carries the integer list given to `msgpack.packb`.
- Websocket serving, asyncio and the threads are not modelled. Each method is one atomic step, and `start()` is one step that runs up to `await self.stop_future`, or to the end of the thread when `serve` raises.
- Lifecycle.Start: a second `start()` call on the same server is not modelled; it is outside the core.
- Lifecycle.Stop: the window between thread start and future creation is not modelled. A `stop()` there would either raise at `stop_future.done()` or wait forever in `join()`.
- Lifecycle.HandleJson: that the echo handler never sends a frame holds by construction, because the model gives it no output. It is not a proved contract. What `json.loads` returns or raises for a message is an input, not derived from the message.
- Lifecycle.Session: errors raised by the websocket iterator itself, such as a connection closed with an error, are not modelled.
- SeriesIndex.Dataset: tag values are reals. A decimal string pydicom cannot parse is not modelled, and a multi-valued tag may hold any number of values.
- SeriesIndex.Dataset: ProtocolName and SOPInstanceUID are single strings. pydicom reads a backslash-separated value such as `T1\T2` as a multi-value. Such a file is still indexed, but then the whole scan fails: the sort at dicom_server.py:99 raises a TypeError when it compares that value with a string, and with a single record `json.dumps` at :133 raises instead. Either way the scan gets one error frame from :153-154, not the usable files. So `Protocol.ScanReplyOrdered`, `SeriesIndex.CollectMembers` and the other scan contracts hold only for single-valued names.
- Protocol.Handle: message members are strings. A non-string JSON value for `action`, `dicom_folder` or `file_path` is not modelled, and neither is a failure of `json.dumps`.
- PixelData.GetPixelData: the missing-file text models `repr` for ASCII paths only. Python also escapes non-printable characters beyond ASCII (as `\x`, `\u` or `\U`), which the model writes as they are.
- PixelData.Trunc: the int64 range of `astype(int)`, NaN and infinities are not modelled. Only 2-D pixel arrays are modelled.
- Client: React state, rendering, `onerror`/`onclose` and the socket itself are left out. So are the string branch of the pixel socket, which parses an already-parsed object, and the msgpack decode, which expects a `pixel_data` field the server never sends. Groups are a map, so `Object.keys` ordering is not modelled.
- Out of scope: `updatetkRoot`, `websocket_send`, GUI.py and src/DicomImage.jsx (desktop UI, Docker calls, floating-point image rendering).

## Findings

| source | as written | input that shows it | evidently intended | confidence | as-written member | corrected member |
|---|---|---|---|---|---|---|
| DICOMServer.py:92-95 | `stop()` schedules the stop coroutine whenever the loop exists and the future is not done, and waits on `.result()`, even when the loop stopped because `serve` failed to bind | `start()` while port 2025 is in use, then `stop()` | `stop()` returns: the `else` branch's message says it is meant for a loop that is not running | medium, not executed | Lifecycle.StopAfterFailedStartBlocks | Lifecycle.StopGuardedReturns |
| DICOMServer.py:102 | `stop()` calls `self.server_thread.is_alive()` without checking that a thread exists, after `shutting_down` is already set | `stop()` on a server whose `start()` was never called | `stop()` returns without error and stays idempotent | medium, not executed | Lifecycle.StopUnstartedRaises | Lifecycle.StopGuardedReturns |
| src/App.js:58-65 | the reducer tests `!acc[protocol]` on a plain `{}`, so inherited names look present and `push` is called on a non-array | a scan reply containing a file whose protocol_name is "constructor" (or "toString", "__proto__", ...) | every protocol gets its own list of paths | high, not executed | Client.GroupAsWrittenThrows | Client.GroupIsFilter |
