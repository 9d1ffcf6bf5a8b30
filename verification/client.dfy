/** The browser client of src/App.js: the requests it builds, the guard on an empty folder,
    and how it folds a scan reply into protocol groups. */
module Client {
  import opened Wrappers
  import opened SeriesIndex
  import opened Protocol
  import StringOrder

  const EmptyFolderError := "Please enter a DICOM folder path."
  const FetchFailedError := "Failed to fetch data"

  /** What `sendQuery` does: refuse with an error, or open a socket and send this object. */
  datatype QueryStep = RefuseQuery(error: string) | SendRequest(request: map<string, string>)

  /** `sendQuery` for the folder typed by the user. */
  function SendQuery(folder: string): (q: QueryStep)
    ensures folder == "" <==> q.RefuseQuery?
    ensures q.RefuseQuery? ==> q.error == EmptyFolderError
    ensures q.SendRequest? ==> q.request.Keys == {"action", "dicom_folder"}
    ensures q.SendRequest? ==> q.request["action"] == "get_sorted_dicom" && q.request["dicom_folder"] == folder
  {
    if folder == "" then RefuseQuery(EmptyFolderError)
    else SendRequest(map["action" := "get_sorted_dicom", "dicom_folder" := folder])
  }

  /** The object `handleFileClick` sends; it has no guard of its own. */
  function FileClickRequest(path: string): (m: map<string, string>)
    ensures m.Keys == {"action", "file_path"}
    ensures m["action"] == "get_dicom_pixel_data" && m["file_path"] == path
  {
    map["action" := "get_dicom_pixel_data", "file_path" := path]
  }

  // ---------------------------------------------------------------- grouping

  /** Protocol name to file paths, as shown in the two columns. */
  type Groups = map<string, seq<string>>

  /** One step of the `reduce`: start the protocol's list if needed, then push the path. */
  function AddFile(acc: Groups, f: Record): Groups {
    var p := f.protocolName;
    acc[p := (if p in acc then acc[p] else []) + [f.filePath]]
  }

  /** The `reduce` over `sorted_dicom_files`, left to right, starting from `{}`, with a fresh
      list for every protocol not seen yet. Its keys are the protocols of the files. */
  function Group(files: seq<Record>): (g: Groups)
    ensures g.Keys == set i | 0 <= i < |files| :: files[i].protocolName
    decreases |files|
  {
    if |files| == 0 then map[]
    else AddFile(Group(files[..|files| - 1]), files[|files| - 1])
  }

  /** The paths of the files with protocol `k`, in list order. */
  function PathsOf(files: seq<Record>, k: string): seq<string> {
    if |files| == 0 then []
    else (if files[0].protocolName == k then [files[0].filePath] else []) + PathsOf(files[1..], k)
  }

  lemma PathsOfCons(f: Record, files: seq<Record>, k: string)
    ensures PathsOf([f] + files, k) == (if f.protocolName == k then [f.filePath] else []) + PathsOf(files, k)
  {
    assert ([f] + files)[0] == f;
    assert ([f] + files)[1..] == files;
  }

  lemma {:induction false} PathsOfSnoc(files: seq<Record>, f: Record, k: string)
    ensures PathsOf(files + [f], k) == PathsOf(files, k) + (if f.protocolName == k then [f.filePath] else [])
    decreases |files|
  {
    if |files| == 0 {
      assert files + [f] == [f];
    } else {
      var rest := files[1..] + [f];
      assert files + [f] == [files[0]] + rest;
      PathsOfSnoc(files[1..], f, k);
      PathsOfCons(files[0], rest, k);
      PathsOfCons(files[0], files[1..], k);
      assert files == [files[0]] + files[1..];
    }
  }

  lemma {:induction false} PathsOfEmpty(files: seq<Record>, k: string)
    ensures PathsOf(files, k) == [] <==> forall i :: 0 <= i < |files| ==> files[i].protocolName != k
    decreases |files|
  {
    if |files| > 0 {
      PathsOfEmpty(files[1..], k);
      assert forall i :: 1 <= i < |files| ==> files[i] == files[1..][i - 1];
    }
  }

  /** Per protocol, the reduce keeps exactly the paths of that protocol's files, in order. */
  lemma {:induction false} GroupPaths(files: seq<Record>, k: string)
    requires k in Group(files)
    ensures Group(files)[k] == PathsOf(files, k)
    decreases |files|
  {
    var n := |files| - 1;
    var init, f := files[..n], files[n];
    assert files == init + [f];
    PathsOfSnoc(init, f, k);
    if k in Group(init) {
      GroupPaths(init, k);
    } else {
      PathsOfEmpty(init, k);
    }
  }

  /** The reduce keys every file by its protocol and keeps, per protocol, exactly the paths of
      that protocol's files in their order in the list; every key has at least one path. */
  lemma GroupIsFilter(files: seq<Record>, k: string)
    ensures k in Group(files) <==> exists i :: 0 <= i < |files| && files[i].protocolName == k
    ensures k in Group(files) ==> Group(files)[k] == PathsOf(files, k) && |Group(files)[k]| > 0
    ensures k !in Group(files) ==> PathsOf(files, k) == []
  {
    PathsOfEmpty(files, k);
    if k in Group(files) {
      GroupPaths(files, k);
    }
  }

  /** Some key of a non-empty map. */
  ghost function AnyKey(m: Groups): (k: string)
    requires |m.Keys| > 0
    ensures k in m
  {
    var k :| k in m; k
  }

  /** The number of paths across all groups. */
  ghost function TotalPaths(m: Groups): nat
    decreases |m.Keys|
  {
    if |m.Keys| == 0 then 0
    else
      var k := AnyKey(m);
      assert (m - {k}).Keys == m.Keys - {k};
      |m[k]| + TotalPaths(m - {k})
  }

  lemma {:induction false} TotalPathsRemove(m: Groups, k: string)
    requires k in m
    ensures TotalPaths(m) == |m[k]| + TotalPaths(m - {k})
    decreases |m.Keys|
  {
    var j := AnyKey(m);
    assert TotalPaths(m) == |m[j]| + TotalPaths(m - {j});
    if j != k {
      assert (m - {j}).Keys == m.Keys - {j};
      assert (m - {k}).Keys == m.Keys - {k};
      TotalPathsRemove(m - {j}, k);
      TotalPathsRemove(m - {k}, j);
      assert m - {j} - {k} == m - {k} - {j};
    }
  }

  lemma UpdateThenRemove(m: Groups, k: string, v: seq<string>)
    ensures m[k := v] - {k} == m - {k}
  {
  }

  lemma RemoveAbsent(m: Groups, k: string)
    requires k !in m
    ensures m - {k} == m
  {
  }

  lemma TotalPathsAppend(m: Groups, k: string, p: string)
    ensures TotalPaths(m[k := (if k in m then m[k] else []) + [p]]) == TotalPaths(m) + 1
  {
    var v := (if k in m then m[k] else []) + [p];
    TotalPathsRemove(m[k := v], k);
    UpdateThenRemove(m, k, v);
    if k in m {
      TotalPathsRemove(m, k);
    } else {
      RemoveAbsent(m, k);
    }
  }

  /** The groups hold exactly as many paths as there are files. */
  lemma {:induction false} GroupTotal(files: seq<Record>)
    ensures TotalPaths(Group(files)) == |files|
    decreases |files|
  {
    if |files| > 0 {
      var n := |files| - 1;
      GroupTotal(files[..n]);
      TotalPathsAppend(Group(files[..n]), files[n].protocolName, files[n].filePath);
    }
  }

  /** Given the server's sort, the files of one protocol come in ascending scan_time order. */
  lemma GroupScanOrder(files: seq<Record>, k: string, i: nat, j: nat)
    requires Sorted(files)
    requires i < j < |files| && files[i].protocolName == k && files[j].protocolName == k
    ensures StringOrder.LessEq(files[i].scanTime, files[j].scanTime)
  {
    assert KeyLessEq(files[i], files[j]);
    StringOrder.LessTrichotomy(files[i].scanTime, files[j].scanTime);
  }

  // ---------------------------------------------------------------- onmessage

  /** The effect of the scan socket's `onmessage`. */
  datatype ClientUpdate = SetProtocols(groups: Groups) | SetError(error: string) | Throws(error: string)

  /** No file has a protocol name that a plain object inherits. */
  predicate PlainNames(files: seq<Record>) {
    forall i :: 0 <= i < |files| ==> files[i].protocolName !in InheritedNames
  }

  /** `onmessage` on the scan connection: group a success reply with the reducer as written,
      otherwise show the error text or the fallback when it is empty. A metadata reply says
      success but has no file list, so `.reduce` is read off `undefined`. When the handler
      throws, the response, the loading flag and the socket are left as they were. */
  function OnScanMessage(reply: Reply): (u: ClientUpdate)
    ensures u.SetProtocols? <==> reply.ScanReply? && PlainNames(reply.files)
    ensures reply.ScanReply? && PlainNames(reply.files) ==> u == SetProtocols(Group(reply.files))
    ensures reply.ScanReply? && !PlainNames(reply.files) ==> u == Throws(PushNotAFunction)
    ensures reply.ErrorReply? && reply.error != "" ==> u == SetError(reply.error)
    ensures reply.ErrorReply? && reply.error == "" ==> u == SetError(FetchFailedError)
    ensures reply.PixelReply? ==> u.Throws?
  {
    match reply
    case ScanReply(files) =>
      (match GroupAsWritten(files)
       case Success(g) => SetProtocols(g)
       case Failure(e) => Throws(e))
    case ErrorReply(e) => SetError(if e == "" then FetchFailedError else e)
    case PixelReply(_) => Throws("Cannot read properties of undefined (reading 'reduce')")
  }

  /** Client and server together: a non-empty folder is sent as a scan request and answered
      with one frame holding the sorted index. If no protocol name is inherited by a plain
      object, the groups list exactly each protocol's paths in index order; otherwise the
      handler throws. */
  lemma QueryRoundTrip(folder: string, disk: Disk, k: string)
    requires folder != ""
    ensures SendQuery(folder).SendRequest?
    ensures var frames := Handle(Object(SendQuery(folder).request), disk);
      var index := ParseAndSort(Walk(disk, folder));
      && frames == [Text(ScanReply(index))]
      && Sorted(index)
      && (PlainNames(index) ==> OnScanMessage(frames[0].reply) == SetProtocols(Group(index)))
      && (PlainNames(index) && k in Group(index) ==> Group(index)[k] == PathsOf(index, k))
      && (!PlainNames(index) ==> OnScanMessage(frames[0].reply).Throws?)
  {
    var index := ParseAndSort(Walk(disk, folder));
    var m := map["action" := "get_sorted_dicom", "dicom_folder" := folder];
    assert SendQuery(folder).request == m;
    assert Get(m, "action") == Some("get_sorted_dicom") && Get(m, "dicom_folder") == Some(folder);
    assert Handle(Object(m), disk) == [Text(ScanReply(index))];
    ParseAndSortOrdered(Walk(disk, folder));
    GroupIsFilter(index, k);
  }

  /** A file click is answered by the metadata frame and the binary frame, or by one error
      frame; an empty path, which the client does not guard against, gets the server's error. */
  lemma FileClickAnswered(path: string, disk: Disk)
    ensures var frames := Handle(Object(FileClickRequest(path)), disk);
      (|frames| == 2 && frames[0].reply.PixelReply? && frames[1].Binary?) || (|frames| == 1 && frames[0].reply.ErrorReply?)
    ensures path == "" ==> Handle(Object(FileClickRequest(path)), disk) == [Text(ErrorReply(NoFilePathError))]
  {
  }

  // ---------------------------------------------------------------- the reduce as written

  /** Names a plain `{}` inherits from `Object.prototype`: `acc[name]` is already truthy. */
  const InheritedNames: set<string> := {
    "constructor", "hasOwnProperty", "isPrototypeOf", "propertyIsEnumerable", "toLocaleString",
    "toString", "valueOf", "__proto__", "__defineGetter__", "__defineSetter__",
    "__lookupGetter__", "__lookupSetter__"}

  /** What the engine throws when `push` is looked up on an inherited non-array. */
  const PushNotAFunction := "acc[protocol].push is not a function"

  /** The reducer exactly as written, on a plain object: for an inherited name the
      `if (!acc[protocol])` test fails and `push` is called on a non-array. It throws exactly
      when some file has such a name, and otherwise builds the same groups as `Group`. */
  function GroupAsWritten(files: seq<Record>): (r: Result<Groups>)
    ensures r.Success? <==> PlainNames(files)
    ensures r.Success? ==> r.value == Group(files)
    ensures r.Failure? ==> r.error == PushNotAFunction
    decreases |files|
  {
    if |files| == 0 then Success(map[])
    else
      var init := files[..|files| - 1];
      var f := files[|files| - 1];
      assert forall i :: 0 <= i < |init| ==> init[i] == files[i];
      match GroupAsWritten(init)
      case Failure(e) => Failure(e)
      case Success(acc) =>
        if f.protocolName !in acc && f.protocolName in InheritedNames
        then Failure(PushNotAFunction)
        else Success(AddFile(acc, f))
  }

  /** A series whose ProtocolName is "constructor" makes the as-written reducer throw. */
  lemma GroupAsWrittenThrows(f: Record)
    requires f.protocolName == "constructor"
    ensures GroupAsWritten([f]).Failure?
  {
    assert [f][..0] == [];
  }
}
