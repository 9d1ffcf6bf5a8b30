/** The message handler `dicom_server` of dicom_server.py: each inbound message becomes a list
    of outbound frames, and a failure of one message never ends the connection. */
module Protocol {
  import opened Wrappers
  import opened SeriesIndex
  import opened PixelData

  /** What the handler can see of the file system: the files `os.walk` lists under each folder,
      in walk order, and the file behind each path. */
  datatype Disk = Disk(walks: map<string, seq<WalkEntry>>, files: map<string, FileEntry>)

  /** `os.walk(folder)`: a folder that is missing or unreadable yields no files at all, since
      `os.walk` drops the error by default. */
  function Walk(disk: Disk, folder: string): (r: seq<WalkEntry>)
    ensures folder !in disk.walks ==> r == []
    ensures folder in disk.walks ==> r == disk.walks[folder]
  {
    if folder in disk.walks then disk.walks[folder] else []
  }

  /** An inbound text message after `json.loads`: a decode error, a JSON value other than an
      object, or an object whose members are strings. */
  datatype Inbound = Malformed(reason: string) | NotAnObject(typeName: string) | Object(fields: map<string, string>)

  /** The JSON body of a text frame. The two success shapes carry `status: "success"`. */
  datatype Reply =
    | ErrorReply(error: string)
    | ScanReply(files: seq<Record>)
    | PixelReply(meta: PixelMeta)

  /** An outbound frame: JSON text, or the binary frame `msgpack.packb` makes of the sample list. */
  datatype Frame = Text(reply: Reply) | Binary(samples: seq<int>)

  const NoFolderError := "No DICOM folder provided"
  const NoFilePathError := "No file path provided"
  const InvalidActionError := "Invalid action"

  /** `data.get(key)` on the decoded object. */
  function Get(fields: map<string, string>, key: string): Option<string> {
    if key in fields then Some(fields[key]) else None
  }

  /** Python's message for calling `.get` on a decoded value that is not a dict. */
  function NoGetText(typeName: string): string {
    "'" + typeName + "' object has no attribute 'get'"
  }

  /** One turn of the `async for` loop: the frames sent for one message, in order. */
  function Handle(msg: Inbound, disk: Disk): (frames: seq<Frame>)
    ensures 1 <= |frames| <= 2 && frames[0].Text?
    ensures |frames| == 2 <==> frames[0].reply.PixelReply?
    ensures |frames| == 2 ==> frames[1].Binary?
    ensures msg.Malformed? ==> frames == [Text(ErrorReply(msg.reason))]
  {
    match msg
    case Malformed(reason) => [Text(ErrorReply(reason))]
    case NotAnObject(t) => [Text(ErrorReply(NoGetText(t)))]
    case Object(fields) =>
      var action := Get(fields, "action");
      if action == Some("get_sorted_dicom") then
        var folder := Get(fields, "dicom_folder").GetOr("");
        if folder == "" then [Text(ErrorReply(NoFolderError))]
        else [Text(ScanReply(ParseAndSort(Walk(disk, folder))))]
      else if action == Some("get_dicom_pixel_data") then
        var path := Get(fields, "file_path").GetOr("");
        if path == "" then [Text(ErrorReply(NoFilePathError))]
        else match GetPixelData(disk.files, path)
          case Failure(e) => [Text(ErrorReply(e))]
          case Success(px) => [Text(PixelReply(px.meta)), Binary(px.samples)]
      else [Text(ErrorReply(InvalidActionError))]
  }

  /** The dispatch table's error rows: each yields exactly one error frame. */
  lemma DispatchErrors(fields: map<string, string>, disk: Disk)
    ensures Get(fields, "action") == Some("get_sorted_dicom") && Get(fields, "dicom_folder").GetOr("") == "" ==>
      Handle(Object(fields), disk) == [Text(ErrorReply(NoFolderError))]
    ensures Get(fields, "action") == Some("get_dicom_pixel_data") && Get(fields, "file_path").GetOr("") == "" ==>
      Handle(Object(fields), disk) == [Text(ErrorReply(NoFilePathError))]
    ensures Get(fields, "action") !in {Some("get_sorted_dicom"), Some("get_dicom_pixel_data")} ==>
      Handle(Object(fields), disk) == [Text(ErrorReply(InvalidActionError))]
  {
  }

  /** A scan request for a named folder gets one text frame listing that folder's index,
      sorted by (protocol_name, scan_time), each usable file exactly once. */
  lemma ScanReplyOrdered(folder: string, disk: Disk)
    requires folder != ""
    ensures var frames := Handle(Object(map["action" := "get_sorted_dicom", "dicom_folder" := folder]), disk);
      && |frames| == 1 && frames[0].Text? && frames[0].reply.ScanReply?
      && Sorted(frames[0].reply.files)
      && multiset(frames[0].reply.files) == multiset(Collect(Walk(disk, folder)))
  {
    var m := map["action" := "get_sorted_dicom", "dicom_folder" := folder];
    assert Get(m, "action") == Some("get_sorted_dicom") && Get(m, "dicom_folder") == Some(folder);
    assert Handle(Object(m), disk) == [Text(ScanReply(ParseAndSort(Walk(disk, folder))))];
    ParseAndSortOrdered(Walk(disk, folder));
  }

  /** Scanning a folder that does not exist is not an error: the reply is a success with an
      empty list. */
  lemma ScanMissingFolder(folder: string, disk: Disk)
    requires folder != "" && folder !in disk.walks
    ensures Handle(Object(map["action" := "get_sorted_dicom", "dicom_folder" := folder]), disk) == [Text(ScanReply([]))]
  {
    var m := map["action" := "get_sorted_dicom", "dicom_folder" := folder];
    assert Get(m, "action") == Some("get_sorted_dicom") && Get(m, "dicom_folder") == Some(folder);
    assert Collect([]) == [];
  }

  /** A pixel request gets, in order, the metadata frame and then the binary frame of samples,
      whose count is the product of the shape; or else exactly one error frame. */
  lemma PixelReplyFrames(path: string, disk: Disk)
    requires path != ""
    ensures var frames := Handle(Object(map["action" := "get_dicom_pixel_data", "file_path" := path]), disk);
      match GetPixelData(disk.files, path)
      case Success(px) =>
        && frames == [Text(PixelReply(px.meta)), Binary(px.samples)]
        && |frames[1].samples| == Product(frames[0].reply.meta.shape)
      case Failure(e) => frames == [Text(ErrorReply(e))]
  {
  }

  /** The whole `async for` loop over one connection's messages: one or two frames each, and
      the first frame answers the first message. */
  function Serve(msgs: seq<Inbound>, disk: Disk): (r: seq<Frame>)
    ensures |msgs| <= |r| <= 2 * |msgs|
    ensures |msgs| > 0 ==> r[0].Text? && r[0] == Handle(msgs[0], disk)[0]
  {
    if |msgs| == 0 then [] else Handle(msgs[0], disk) + Serve(msgs[1..], disk)
  }

  /** Whatever earlier messages did, later ones are answered as if they came first: an error
      never stops the loop. */
  lemma {:induction false} ServeAppend(a: seq<Inbound>, b: seq<Inbound>, disk: Disk)
    ensures Serve(a + b, disk) == Serve(a, disk) + Serve(b, disk)
    decreases |a|
  {
    if |a| > 0 {
      var h := Handle(a[0], disk);
      assert (a + b)[0] == a[0];
      assert (a + b)[1..] == a[1..] + b;
      assert Serve(a + b, disk) == h + Serve(a[1..] + b, disk);
      ServeAppend(a[1..], b, disk);
      assert Serve(a, disk) == h + Serve(a[1..], disk);
    } else {
      assert a + b == b;
    }
  }

  /** The client's side of positional correlation: cut a frame stream back into one response
      per request (a metadata frame takes the binary frame after it). */
  function Responses(frames: seq<Frame>): Option<seq<seq<Frame>>>
    decreases |frames|
  {
    if |frames| == 0 then Some([])
    else if !frames[0].Text? then None
    else
      var n := if frames[0].reply.PixelReply? then 2 else 1;
      if |frames| < n || (n == 2 && !frames[1].Binary?) then None
      else match Responses(frames[n..])
        case None => None
        case Some(rest) => Some([frames[..n]] + rest)
  }

  /** The frames `Handle` sends for one message. */
  predicate OneResponse(h: seq<Frame>) {
    && 1 <= |h| <= 2 && h[0].Text?
    && (|h| == 2 <==> h[0].reply.PixelReply?)
    && (|h| == 2 ==> h[1].Binary?)
  }

  /** The splitter takes one response off the front of the stream. */
  lemma ResponsesCons(h: seq<Frame>, rest: seq<Frame>)
    requires OneResponse(h)
    ensures Responses(h + rest) ==
      match Responses(rest)
      case None => None
      case Some(rs) => Some([h] + rs)
  {
    var all := h + rest;
    assert all[0] == h[0];
    if |h| == 2 {
      assert all[1] == h[1];
    }
    assert all[..|h|] == h;
    assert all[|h|..] == rest;
  }

  /** The per-message responses, in order. */
  function Answers(msgs: seq<Inbound>, disk: Disk): (r: seq<seq<Frame>>)
    ensures |r| == |msgs|
    ensures forall i :: 0 <= i < |msgs| ==> r[i] == Handle(msgs[i], disk)
  {
    seq(|msgs|, i requires 0 <= i < |msgs| => Handle(msgs[i], disk))
  }

  lemma AnswersCons(msgs: seq<Inbound>, disk: Disk)
    requires |msgs| > 0
    ensures Answers(msgs, disk) == [Handle(msgs[0], disk)] + Answers(msgs[1..], disk)
  {
    var a, rest := Answers(msgs, disk), Answers(msgs[1..], disk);
    assert a[1..] == rest by {
      forall i | 0 <= i < |rest|
        ensures a[1..][i] == rest[i]
      {
        assert msgs[1..][i] == msgs[i + 1];
      }
    }
    assert a == [a[0]] + a[1..];
  }

  /** One request at a time on a connection lets the client recover each message's response
      from the stream alone, with no request identifiers. */
  lemma {:induction false} ServeCorrelates(msgs: seq<Inbound>, disk: Disk)
    ensures Responses(Serve(msgs, disk)) == Some(Answers(msgs, disk))
    decreases |msgs|
  {
    if |msgs| > 0 {
      var h := Handle(msgs[0], disk);
      ServeCorrelates(msgs[1..], disk);
      ResponsesCons(h, Serve(msgs[1..], disk));
      AnswersCons(msgs, disk);
    } else {
      assert Answers(msgs, disk) == [];
    }
  }

  /** Every message is answered by exactly one text frame. */
  function CountText(frames: seq<Frame>): nat {
    if |frames| == 0 then 0 else (if frames[0].Text? then 1 else 0) + CountText(frames[1..])
  }

  lemma CountTextAppend(a: seq<Frame>, b: seq<Frame>)
    ensures CountText(a + b) == CountText(a) + CountText(b)
  {
    if |a| > 0 {
      assert (a + b)[0] == a[0];
      assert (a + b)[1..] == a[1..] + b;
      CountTextAppend(a[1..], b);
    } else {
      assert a + b == b;
    }
  }

  lemma {:induction false} ServeOneTextEach(msgs: seq<Inbound>, disk: Disk)
    ensures CountText(Serve(msgs, disk)) == |msgs|
    decreases |msgs|
  {
    if |msgs| > 0 {
      var h := Handle(msgs[0], disk);
      ServeOneTextEach(msgs[1..], disk);
      CountTextAppend(h, Serve(msgs[1..], disk));
      if |h| == 2 {
        assert h[1..][1..] == [];
      }
    }
  }

  /** A missing field yields an error and the next request on the same connection is still
      answered; so are bogus actions and undecodable text. */
  lemma ErrorThenSuccess(folder: string, disk: Disk)
    requires folder != ""
    ensures var msgs := [Object(map["action" := "get_sorted_dicom"]),
                         Object(map["action" := "get_sorted_dicom", "dicom_folder" := folder])];
            Serve(msgs, disk) == [Text(ErrorReply(NoFolderError)), Text(ScanReply(ParseAndSort(Walk(disk, folder))))]
    ensures Handle(Object(map["action" := "bogus"]), disk) == [Text(ErrorReply(InvalidActionError))]
  {
    var msgs := [Object(map["action" := "get_sorted_dicom"]),
                 Object(map["action" := "get_sorted_dicom", "dicom_folder" := folder])];
    assert Handle(msgs[0], disk) == [Text(ErrorReply(NoFolderError))];
    assert Handle(msgs[1], disk) == [Text(ScanReply(ParseAndSort(Walk(disk, folder))))];
    assert msgs[1..] == [msgs[1]];
    assert Serve(msgs[1..], disk) == Handle(msgs[1], disk) + Serve(msgs[1..][1..], disk);
    assert |msgs[1..][1..]| == 0;
  }
}
