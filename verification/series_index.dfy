/** The series indexer of dicom_server.py: probing files, building one record per usable
    DICOM file and ordering the records by (protocol name, instance UID). */
module SeriesIndex {
  import opened Wrappers
  import StringOrder

  /** A rectangular 2-D pixel array, as numpy hands it out: `rows` rows of `cols` samples. */
  datatype Grid = Grid(rows: nat, cols: nat, cells: seq<seq<real>>) {
    predicate Rectangular() {
      |cells| == rows && forall i :: 0 <= i < |cells| ==> |cells[i]| == cols
    }
  }

  type Image = g: Grid | g.Rectangular() witness Grid(0, 0, [])

  /** A decimal-string tag such as ImagePositionPatient as pydicom hands out its value: the tag
      is absent, present without a value (read as `None`), holds one value (read as a bare
      number) or several (read as a list). Only the last can be iterated. */
  datatype DsTag = Absent | NoValue | Single(x: real) | Multi(values: seq<real>)

  /** The attributes of a parsed DICOM dataset the service looks at; `None` is a missing tag.
      `pixels` is what reading `pixel_array` gives: the array, or the text of the error raised. */
  datatype Dataset = Dataset(
    protocol: Option<string>,
    uid: Option<string>,
    position: DsTag,
    orientation: DsTag,
    pixels: Result<Image>)

  /** A file on disk as `pydicom.dcmread` sees it. */
  datatype FileEntry = NotDicom(readError: string) | Dicom(data: Dataset)

  /** One file produced by `os.walk`, with its joined path. */
  datatype WalkEntry = WalkEntry(path: string, file: FileEntry)

  /** One series member, the dict built per file by parse_and_sort_dicom_files. */
  datatype Record = Record(
    filePath: string,
    protocolName: string,
    scanTime: string,
    imagePosition: seq<real>,
    imageOrientation: seq<real>)

  /** `pydicom.dcmread`: the dataset, or the error it raises. */
  function DcmRead(f: FileEntry): Result<Dataset> {
    match f
    case NotDicom(e) => Failure(e)
    case Dicom(d) => Success(d)
  }

  /** is_dicom_file: a probe that never raises and answers whether the read succeeds. */
  function IsDicomFile(f: FileEntry): (ok: bool)
    ensures ok <==> DcmRead(f).Success?
    ensures !ok ==> f.NotDicom?
  {
    match f
    case NotDicom(_) => false
    case Dicom(_) => true
  }

  /** The body of the per-file `try`: a record, or `None` when building it raised (the file is
      then logged and skipped). Missing ProtocolName and SOPInstanceUID take their defaults;
      a position or orientation that is absent, empty or single-valued cannot be iterated by
      the list comprehension, which raises. */
  function ReadRecord(e: WalkEntry): (r: Option<Record>)
    ensures r.Some? <==> e.file.Dicom? && e.file.data.position.Multi? && e.file.data.orientation.Multi?
    ensures r.Some? ==> r.value.filePath == e.path
    ensures r.Some? ==> r.value.imagePosition == e.file.data.position.values
    ensures r.Some? ==> r.value.imageOrientation == e.file.data.orientation.values
    ensures r.Some? && e.file.data.protocol.None? ==> r.value.protocolName == "Unknown"
    ensures r.Some? && e.file.data.protocol.Some? ==> r.value.protocolName == e.file.data.protocol.value
    ensures r.Some? && e.file.data.uid.None? ==> r.value.scanTime == "000000"
    ensures r.Some? && e.file.data.uid.Some? ==> r.value.scanTime == e.file.data.uid.value
  {
    if !IsDicomFile(e.file) then None
    else
      var d := e.file.data;
      match (d.position, d.orientation)
      case (Multi(pos), Multi(ori)) =>
        Some(Record(e.path, d.protocol.GetOr("Unknown"), d.uid.GetOr("000000"), pos, ori))
      case _ => None
  }

  /** The records appended while walking, in walk order: at most one per walked file, and
      each one read from some walked file. */
  function Collect(walk: seq<WalkEntry>): (r: seq<Record>)
    ensures |r| <= |walk|
    ensures forall i :: 0 <= i < |r| ==> exists j :: 0 <= j < |walk| && ReadRecord(walk[j]) == Some(r[i])
  {
    if |walk| == 0 then []
    else
      var rest := Collect(walk[1..]);
      match ReadRecord(walk[0])
      case Some(rec) => [rec] + rest
      case None => rest
  }

  // ---------------------------------------------------------------- ordering

  /** Python's `<` on the sort key `(protocol_name, scan_time)`: tuples compare by their first
      differing component. */
  predicate KeyLess(a: Record, b: Record)
    ensures a.protocolName != b.protocolName ==>
      (KeyLess(a, b) <==> StringOrder.Less(a.protocolName, b.protocolName))
    ensures a.protocolName == b.protocolName ==>
      (KeyLess(a, b) <==> StringOrder.Less(a.scanTime, b.scanTime))
  {
    StringOrder.LessIrreflexive(a.protocolName);
    StringOrder.Less(a.protocolName, b.protocolName)
    || (a.protocolName == b.protocolName && StringOrder.Less(a.scanTime, b.scanTime))
  }

  predicate SameKey(a: Record, b: Record) {
    a.protocolName == b.protocolName && a.scanTime == b.scanTime
  }

  lemma KeyLessIrreflexive(a: Record, b: Record)
    requires SameKey(a, b)
    ensures !KeyLess(a, b)
  {
    StringOrder.LessIrreflexive(a.protocolName);
    StringOrder.LessIrreflexive(a.scanTime);
  }

  lemma KeyLessTransitive(a: Record, b: Record, c: Record)
    requires KeyLess(a, b) && KeyLess(b, c)
    ensures KeyLess(a, c)
  {
    if StringOrder.Less(a.protocolName, b.protocolName) && StringOrder.Less(b.protocolName, c.protocolName) {
      StringOrder.LessTransitive(a.protocolName, b.protocolName, c.protocolName);
    } else if a.protocolName == b.protocolName && b.protocolName == c.protocolName {
      StringOrder.LessTransitive(a.scanTime, b.scanTime, c.scanTime);
    }
  }

  lemma KeyTrichotomy(a: Record, b: Record)
    ensures KeyLess(a, b) || SameKey(a, b) || KeyLess(b, a)
  {
    StringOrder.LessTrichotomy(a.protocolName, b.protocolName);
    StringOrder.LessTrichotomy(a.scanTime, b.scanTime);
  }

  /** `b` does not sort before `a`. */
  predicate KeyLessEq(a: Record, b: Record) {
    !KeyLess(b, a)
  }

  lemma KeyLessEqTransitive(a: Record, b: Record, c: Record)
    requires KeyLessEq(a, b) && KeyLessEq(b, c)
    ensures KeyLessEq(a, c)
  {
    if KeyLess(c, a) {
      KeyTrichotomy(a, b);
      KeyTrichotomy(b, c);
      if KeyLess(a, b) {
        KeyLessTransitive(c, a, b);
      } else if SameKey(a, b) {
        if KeyLess(b, c) {
          KeyLessTransitive(c, a, b);
        } else {
          KeyLessIrreflexive(c, b);
        }
      } else {
        KeyLessIrreflexive(b, c);
        KeyLessTransitive(c, a, b);
      }
    }
  }

  /** Ascending by key: no record sorts before an earlier one. */
  predicate Sorted(s: seq<Record>) {
    forall i, j :: 0 <= i < j < |s| ==> KeyLessEq(s[i], s[j])
  }

  /** The records of `s` whose key equals `x`'s, in their order in `s`. */
  function Ties(s: seq<Record>, x: Record): seq<Record> {
    if |s| == 0 then []
    else (if SameKey(s[0], x) then [s[0]] else []) + Ties(s[1..], x)
  }

  /** Inserts `x` before the first record that does not sort strictly before it. */
  function Insert(x: Record, s: seq<Record>): (r: seq<Record>)
    ensures multiset(r) == multiset(s) + multiset{x}
  {
    if |s| == 0 then [x]
    else if KeyLess(s[0], x) then
      assert s == [s[0]] + s[1..];
      [s[0]] + Insert(x, s[1..])
    else [x] + s
  }

  /** A stable sort by key (insertion sort, front element inserted into the sorted tail). */
  function Sort(s: seq<Record>): (r: seq<Record>)
    ensures multiset(r) == multiset(s)
    ensures |r| == |s|
  {
    if |s| == 0 then []
    else
      assert s == [s[0]] + s[1..];
      Insert(s[0], Sort(s[1..]))
  }

  lemma {:induction false} InsertSorted(x: Record, s: seq<Record>)
    requires Sorted(s)
    ensures Sorted(Insert(x, s))
    decreases |s|
  {
    if |s| > 0 {
      var r := Insert(x, s);
      if KeyLess(s[0], x) {
        var t := Insert(x, s[1..]);
        InsertSorted(x, s[1..]);
        assert r == [s[0]] + t;
        forall j | 0 <= j < |t|
          ensures KeyLessEq(s[0], t[j])
        {
          assert t[j] in multiset(t);
          if t[j] == x {
            KeyTrichotomy(s[0], x);
            KeyLessIrreflexive(s[0], s[0]);
            if KeyLess(x, s[0]) {
              KeyLessTransitive(x, s[0], x);
              KeyLessIrreflexive(x, x);
            }
          } else {
            assert t[j] in multiset(s[1..]);
            var k :| 0 <= k < |s[1..]| && s[1..][k] == t[j];
            assert s[k + 1] == t[j];
          }
        }
      } else {
        assert r == [x] + s;
        forall j | 0 <= j < |s|
          ensures KeyLessEq(x, s[j])
        {
          assert KeyLessEq(x, s[0]);
          if j > 0 {
            KeyLessEqTransitive(x, s[0], s[j]);
          }
        }
      }
    }
  }

  lemma {:induction false} SortSorted(s: seq<Record>)
    ensures Sorted(Sort(s))
    decreases |s|
  {
    if |s| > 0 {
      SortSorted(s[1..]);
      InsertSorted(s[0], Sort(s[1..]));
    }
  }

  lemma TiesCons(a: Record, t: seq<Record>, y: Record)
    ensures Ties([a] + t, y) == (if SameKey(a, y) then [a] else []) + Ties(t, y)
  {
    assert ([a] + t)[0] == a;
    assert ([a] + t)[1..] == t;
  }

  /** Inserting `x` puts it in front of every record sharing its key and changes nothing else
      about the records of any one key. */
  lemma {:induction false} InsertTies(x: Record, s: seq<Record>, y: Record)
    ensures Ties(Insert(x, s), y) == (if SameKey(x, y) then [x] else []) + Ties(s, y)
    decreases |s|
  {
    if |s| == 0 {
      assert Insert(x, s) == [x] + [];
      TiesCons(x, [], y);
    } else if KeyLess(s[0], x) {
      InsertTies(x, s[1..], y);
      InsertTiesStep(x, s, y);
    } else {
      assert Insert(x, s) == [x] + s;
      TiesCons(x, s, y);
    }
  }

  lemma InsertPast(x: Record, s: seq<Record>)
    requires |s| > 0 && KeyLess(s[0], x)
    ensures Insert(x, s) == [s[0]] + Insert(x, s[1..])
  {
  }

  /** Two prefixes of which at least one is empty commute in front of a sequence. */
  lemma SwapEmptyPrefix(h: seq<Record>, k: seq<Record>, rest: seq<Record>)
    requires h == [] || k == []
    ensures h + (k + rest) == k + (h + rest)
  {
  }

  /** The step of InsertTies where `x` moves past the front record. */
  lemma InsertTiesStep(x: Record, s: seq<Record>, y: Record)
    requires |s| > 0 && KeyLess(s[0], x)
    requires Ties(Insert(x, s[1..]), y) == (if SameKey(x, y) then [x] else []) + Ties(s[1..], y)
    ensures Ties(Insert(x, s), y) == (if SameKey(x, y) then [x] else []) + Ties(s, y)
  {
    var t := Insert(x, s[1..]);
    var h := if SameKey(s[0], y) then [s[0]] else [];
    var k := if SameKey(x, y) then [x] else [];
    InsertPast(x, s);
    TiesCons(s[0], t, y);
    assert Ties(s, y) == h + Ties(s[1..], y);
    if SameKey(x, y) && SameKey(s[0], y) {
      KeyLessIrreflexive(s[0], x);
    }
    SwapEmptyPrefix(h, k, Ties(s[1..], y));
  }

  /** Stability: for every key, the records with that key keep their input order. */
  lemma {:induction false} SortStable(s: seq<Record>, y: Record)
    ensures Ties(Sort(s), y) == Ties(s, y)
    decreases |s|
  {
    if |s| > 0 {
      SortStable(s[1..], y);
      InsertTies(s[0], Sort(s[1..]), y);
    }
  }

  lemma TiesMember(s: seq<Record>, x: Record)
    requires x in s
    ensures x in Ties(s, x)
  {
    if s[0] != x {
      TiesMember(s[1..], x);
    }
  }

  lemma TiesSubset(s: seq<Record>, x: Record, y: Record)
    requires y in Ties(s, x)
    ensures y in s
  {
    if |s| > 0 && y != s[0] {
      TiesSubset(s[1..], x, y);
    }
  }

  /** Any two orderings that are both sorted and agree on the order within every key are the
      same sequence: the ascending stable sort of a list is unique, whatever the algorithm. */
  lemma {:induction false} StableSortUnique(a: seq<Record>, b: seq<Record>)
    requires Sorted(a) && Sorted(b)
    requires forall x :: Ties(a, x) == Ties(b, x)
    ensures a == b
    decreases |a| + |b|
  {
    if |a| == 0 {
      if |b| > 0 {
        TiesMember(b, b[0]);
      }
    } else if |b| == 0 {
      TiesMember(a, a[0]);
    } else {
      TiesMember(a, a[0]);
      TiesMember(b, b[0]);
      TiesSubset(b, a[0], a[0]);
      TiesSubset(a, b[0], b[0]);
      var i :| 0 <= i < |b| && b[i] == a[0];
      var j :| 0 <= j < |a| && a[j] == b[0];
      if j > 0 { assert KeyLessEq(a[0], a[j]); } else { KeyLessIrreflexive(a[0], a[0]); }
      if i > 0 { assert KeyLessEq(b[0], b[i]); } else { KeyLessIrreflexive(b[0], b[0]); }
      KeyTrichotomy(a[0], b[0]);
      assert SameKey(a[0], b[0]);
      assert Ties(a, a[0])[0] == a[0];
      assert Ties(b, a[0])[0] == b[0];
      assert a[0] == b[0];
      forall x
        ensures Ties(a[1..], x) == Ties(b[1..], x)
      {
        var head := if SameKey(a[0], x) then [a[0]] else [];
        assert Ties(a, x) == head + Ties(a[1..], x);
        assert Ties(b, x) == head + Ties(b[1..], x);
        assert Ties(a[1..], x) == Ties(a, x)[|head|..];
        assert Ties(b[1..], x) == Ties(b, x)[|head|..];
      }
      StableSortUnique(a[1..], b[1..]);
      assert a == [a[0]] + a[1..] && b == [b[0]] + b[1..];
    }
  }

  /** parse_and_sort_dicom_files over one walk of the folder: the collected records, reordered. */
  function ParseAndSort(walk: seq<WalkEntry>): (r: seq<Record>)
    ensures |r| == |Collect(walk)| && multiset(r) == multiset(Collect(walk))
  {
    Sort(Collect(walk))
  }

  /** The result is ascending by (protocol_name, scan_time) and holds exactly the collected
      records, each once. */
  lemma ParseAndSortOrdered(walk: seq<WalkEntry>)
    ensures Sorted(ParseAndSort(walk))
    ensures multiset(ParseAndSort(walk)) == multiset(Collect(walk))
  {
    SortSorted(Collect(walk));
  }

  /** Stability: records with equal keys keep the order in which the walk met them. */
  lemma ParseAndSortStable(walk: seq<WalkEntry>, x: Record)
    ensures Ties(ParseAndSort(walk), x) == Ties(Collect(walk), x)
  {
    SortStable(Collect(walk), x);
  }

  /** Any sequence that is sorted and keeps walk order within each key is the index itself, so
      the model agrees with every stable sort, Python's included. */
  lemma ParseAndSortUnique(walk: seq<WalkEntry>, s: seq<Record>)
    requires Sorted(s)
    requires forall x :: Ties(s, x) == Ties(Collect(walk), x)
    ensures s == ParseAndSort(walk)
  {
    SortSorted(Collect(walk));
    forall x
      ensures Ties(s, x) == Ties(ParseAndSort(walk), x)
    {
      SortStable(Collect(walk), x);
    }
    StableSortUnique(s, ParseAndSort(walk));
  }

  /** A record is in the index exactly when some walked file reads as that record; no other
      file contributes and none is dropped. */
  lemma {:induction false} CollectMembers(walk: seq<WalkEntry>, rec: Record)
    ensures rec in Collect(walk) <==> exists i :: 0 <= i < |walk| && ReadRecord(walk[i]) == Some(rec)
    decreases |walk|
  {
    if |walk| > 0 {
      CollectMembers(walk[1..], rec);
      if exists i :: 0 <= i < |walk| && ReadRecord(walk[i]) == Some(rec) {
        var i :| 0 <= i < |walk| && ReadRecord(walk[i]) == Some(rec);
        if i > 0 {
          assert walk[1..][i - 1] == walk[i];
        }
      }
      if exists i :: 0 <= i < |walk[1..]| && ReadRecord(walk[1..][i]) == Some(rec) {
        var i :| 0 <= i < |walk[1..]| && ReadRecord(walk[1..][i]) == Some(rec);
        assert walk[i + 1] == walk[1..][i];
      }
    }
  }

  /** Number of walked files that yield a record. */
  function CountReadable(walk: seq<WalkEntry>): nat {
    if |walk| == 0 then 0
    else (if ReadRecord(walk[0]).Some? then 1 else 0) + CountReadable(walk[1..])
  }

  /** One record per usable file: nothing added, nothing duplicated. */
  lemma {:induction false} CollectCount(walk: seq<WalkEntry>)
    ensures |Collect(walk)| == CountReadable(walk)
    decreases |walk|
  {
    if |walk| > 0 {
      CollectCount(walk[1..]);
    }
  }

  /** The index as a whole: membership, count, and the empty case. */
  lemma ParseAndSortContents(walk: seq<WalkEntry>)
    ensures |ParseAndSort(walk)| == CountReadable(walk)
    ensures forall rec :: rec in ParseAndSort(walk) <==> exists i :: 0 <= i < |walk| && ReadRecord(walk[i]) == Some(rec)
    ensures (forall i :: 0 <= i < |walk| ==> ReadRecord(walk[i]).None?) ==> ParseAndSort(walk) == []
  {
    CollectCount(walk);
    forall rec
      ensures rec in ParseAndSort(walk) <==> exists i :: 0 <= i < |walk| && ReadRecord(walk[i]) == Some(rec)
    {
      CollectMembers(walk, rec);
      assert rec in ParseAndSort(walk) <==> rec in multiset(ParseAndSort(walk));
      assert rec in Collect(walk) <==> rec in multiset(Collect(walk));
    }
  }

  /** The two-file example: same protocol, instance "002" walked before "001"; the index
      lists "001" first. */
  lemma ScenarioTwoInstances(a: Dataset, b: Dataset)
    requires a.protocol == Some("CT") && a.uid == Some("002")
    requires b.protocol == Some("CT") && b.uid == Some("001")
    requires a.position.Multi? && a.orientation.Multi? && b.position.Multi? && b.orientation.Multi?
    ensures var out := ParseAndSort([WalkEntry("a.img", Dicom(a)), WalkEntry("b.img", Dicom(b))]);
            |out| == 2 && out[0].filePath == "b.img" && out[1].filePath == "a.img"
  {
    var walk := [WalkEntry("a.img", Dicom(a)), WalkEntry("b.img", Dicom(b))];
    var ra, rb := ReadRecord(walk[0]).value, ReadRecord(walk[1]).value;
    assert walk[1..] == [walk[1]];
    assert walk[1..][1..] == [];
    assert Collect(walk[1..]) == [rb];
    assert Collect(walk) == [ra, rb];
    assert StringOrder.Less("001", "002");
    assert KeyLess(rb, ra);
    assert [ra, rb][1..] == [rb];
    assert [rb][1..] == [];
    assert Sort([rb]) == [rb];
    assert Insert(ra, [rb]) == [rb, ra];
  }
}
