/** get_dicom_pixel_data of dicom_server.py: metadata of one file plus its pixel samples,
    flattened row-major and truncated to integers. */
module PixelData {
  import opened Wrappers
  import opened SeriesIndex

  /** numpy's `astype(int)` on one sample: truncation toward zero, never rounding. */
  function Trunc(x: real): (n: int)
    ensures 0.0 <= x ==> n as real <= x < n as real + 1.0
    ensures x < 0.0 ==> n as real - 1.0 < x <= n as real
  {
    if 0.0 <= x then x.Floor else -((-x).Floor)
  }

  /** One row, truncated sample by sample. */
  function TruncRow(row: seq<real>): (r: seq<int>)
    ensures |r| == |row|
    ensures forall j :: 0 <= j < |row| ==> r[j] == Trunc(row[j])
  {
    if |row| == 0 then [] else [Trunc(row[0])] + TruncRow(row[1..])
  }

  lemma MulSucc(n: nat, c: nat)
    ensures (n + 1) * c == c + n * c
  {
  }

  /** `flatten().tolist()` after `astype(int)`: the rows, truncated, laid end to end. */
  function Flatten(rows: seq<seq<real>>, cols: nat): (r: seq<int>)
    requires forall i :: 0 <= i < |rows| ==> |rows[i]| == cols
    ensures |r| == |rows| * cols
  {
    if |rows| == 0 then []
    else
      var tail := Flatten(rows[1..], cols);
      MulSucc(|rows| - 1, cols);
      TruncRow(rows[0]) + tail
  }

  /** Euclidean division is determined by its defining equation. */
  lemma DivModUnique(n: int, d: int, q: int, r: int)
    requires 0 < d && 0 <= r < d && n == q * d + r
    ensures n / d == q && n % d == r
  {
    var q', r' := n / d, n % d;
    assert (q - q') * d == r' - r;
    if q' < q {
      MulAtLeast(q - q', d);
    } else if q < q' {
      MulAtLeast(q' - q, d);
    }
  }

  lemma DivModDef(n: int, d: int)
    requires 0 < d
    ensures n == (n / d) * d + n % d && 0 <= n % d < d
  {
  }

  /** Skipping one row: `k` and `k - cols` share a column, one row apart. */
  lemma DivStep(k: int, cols: int)
    requires 0 < cols <= k
    ensures k / cols == (k - cols) / cols + 1 && k % cols == (k - cols) % cols
  {
    var q, r := (k - cols) / cols, (k - cols) % cols;
    DivModDef(k - cols, cols);
    MulSucc(q, cols);
    DivModUnique(k, cols, q + 1, r);
  }

  lemma MulAtLeast(x: int, d: int)
    requires 1 <= x && 0 < d
    ensures d <= x * d
  {
  }

  /** The flattened list is the first row, truncated, then the rest flattened. */
  lemma FlattenCons(rows: seq<seq<real>>, cols: nat)
    requires forall i :: 0 <= i < |rows| ==> |rows[i]| == cols
    requires 0 < |rows|
    ensures Flatten(rows, cols) == TruncRow(rows[0]) + Flatten(rows[1..], cols)
    ensures |TruncRow(rows[0])| == cols
  {
  }

  /** Entry k of the flattened list is sample (k / cols, k % cols), truncated. */
  lemma {:induction false} FlattenAt(rows: seq<seq<real>>, cols: nat, k: nat)
    requires forall i :: 0 <= i < |rows| ==> |rows[i]| == cols
    requires k < |Flatten(rows, cols)|
    ensures 0 < cols && k / cols < |rows|
    ensures Flatten(rows, cols)[k] == Trunc(rows[k / cols][k % cols])
    decreases |rows|
  {
    FlattenCons(rows, cols);
    if k < cols {
      FlattenAtFirstRow(rows, cols, k);
    } else {
      var tail := Flatten(rows[1..], cols);
      FlattenAt(rows[1..], cols, k - cols);
      DivStep(k, cols);
      assert Flatten(rows, cols)[k] == tail[k - cols];
    }
  }

  lemma FlattenAtFirstRow(rows: seq<seq<real>>, cols: nat, k: nat)
    requires forall i :: 0 <= i < |rows| ==> |rows[i]| == cols
    requires 0 < |rows| && k < cols
    ensures k / cols == 0 && k % cols == k
    ensures Flatten(rows, cols)[k] == Trunc(rows[0][k])
  {
    FlattenCons(rows, cols);
    DivModUnique(k, cols, 0, k);
    assert Flatten(rows, cols)[k] == TruncRow(rows[0])[k];
  }

  /** Sample (i, j) of the array sits at position i * cols + j of the flattened list. */
  lemma FlattenRowMajor(rows: seq<seq<real>>, cols: nat, i: nat, j: nat)
    requires forall k :: 0 <= k < |rows| ==> |rows[k]| == cols
    requires i < |rows| && j < cols
    ensures i * cols + j < |Flatten(rows, cols)|
    ensures Flatten(rows, cols)[i * cols + j] == Trunc(rows[i][j])
  {
    var k := i * cols + j;
    MulSucc(i, cols);
    MulMonotone(i + 1, |rows|, cols);
    DivModUnique(k, cols, i, j);
    FlattenAt(rows, cols, k);
  }

  lemma MulMonotone(a: nat, b: nat, c: nat)
    requires a <= b
    ensures a * c <= b * c
  {
  }

  /** `samples` is `img` read row by row, each sample truncated: entry k is sample
      (k / cols, k % cols). */
  predicate RowMajorTruncation(samples: seq<int>, img: Image) {
    forall k :: 0 <= k < |samples| ==>
      0 < img.cols && k / img.cols < img.rows && samples[k] == Trunc(img.cells[k / img.cols][k % img.cols])
  }

  lemma FlattenIsRowMajor(img: Image)
    ensures RowMajorTruncation(Flatten(img.cells, img.cols), img)
  {
    forall k | 0 <= k < |Flatten(img.cells, img.cols)|
      ensures 0 < img.cols && k / img.cols < img.rows
      ensures Flatten(img.cells, img.cols)[k] == Trunc(img.cells[k / img.cols][k % img.cols])
    {
      FlattenAt(img.cells, img.cols, k);
    }
  }

  /** The product of an array shape: its number of elements. */
  function Product(shape: seq<nat>): nat {
    if |shape| == 0 then 1 else shape[0] * Product(shape[1..])
  }

  lemma ProductOfPair(rows: nat, cols: nat)
    ensures Product([rows, cols]) == rows * cols
  {
    assert [rows, cols][1..] == [cols];
    assert [cols][1..] == [];
    assert Product([cols]) == cols * 1;
    assert Product([rows, cols]) == rows * Product([cols]);
  }

  /** The JSON metadata frame: `status` is "success" implicitly; no pixel data in it. */
  datatype PixelMeta = PixelMeta(origin: seq<real>, orientation: seq<real>, shape: seq<nat>)

  /** What get_dicom_pixel_data returns when it does not raise: the metadata dict and the list
      handed to `msgpack.packb` (the packed bytes themselves are not modelled). */
  datatype PixelResult = PixelResult(meta: PixelMeta, samples: seq<int>)

  /** Python's message for reading an absent attribute of a pydicom dataset. */
  function AttributeErrorText(name: string): string {
    "'FileDataset' object has no attribute '" + name + "'"
  }

  /** The quote Python's `repr` puts around a string: double quotes when the text holds a
      single quote and no double quote, single quotes otherwise. */
  function ReprQuote(s: string): (q: char)
    ensures q == '"' <==> '\'' in s && '"' !in s
    ensures q == '"' || q == '\''
  {
    if '\'' in s && '"' !in s then '"' else '\''
  }

  function HexDigit(n: nat): char
    requires n < 16
  {
    "0123456789abcdef"[n]
  }

  predicate IsHex(c: char) {
    '0' <= c <= '9' || 'a' <= c <= 'f'
  }

  function HexValue(c: char): (n: nat)
    requires IsHex(c)
    ensures n < 16
  {
    if c <= '9' then c as int - '0' as int else c as int - 'a' as int + 10
  }

  /** A character `repr` writes as it is, inside quotes `q`. */
  predicate Verbatim(c: char, q: char) {
    c != q && c != '\\' && ' ' <= c && c as int != 0x7f
  }

  /** One character as `repr` writes it inside quotes `q`: the quote and the backslash get a
      backslash, tab, newline and carriage return their letter escapes, and the other ASCII
      control characters a two-digit `\x` escape. */
  function ReprChar(c: char, q: char): (r: string)
    ensures Verbatim(c, q) <==> r == [c]
    ensures 1 <= |r| <= 4
  {
    if c == q || c == '\\' then ['\\', c]
    else if c == '\t' then ['\\', 't']
    else if c == '\n' then ['\\', 'n']
    else if c == '\r' then ['\\', 'r']
    else if c < ' ' || c as int == 0x7f then ['\\', 'x', HexDigit(c as int / 16), HexDigit(c as int % 16)]
    else [c]
  }

  /** The text between the quotes of `repr`. */
  function ReprBody(s: string, q: char): (r: string)
    ensures |s| <= |r| <= 4 * |s|
  {
    if |s| == 0 then [] else ReprChar(s[0], q) + ReprBody(s[1..], q)
  }

  /** Python's `repr` of a string made of ASCII characters. */
  function PyRepr(s: string): (r: string)
    ensures |r| >= 2 && r[0] == ReprQuote(s) && r[|r| - 1] == ReprQuote(s)
  {
    [ReprQuote(s)] + ReprBody(s, ReprQuote(s)) + [ReprQuote(s)]
  }

  /** How Python reads the inside of a quoted string literal back, for the escapes `repr`
      writes; a backslash before any other character stands for that character. */
  function ReadEscapes(t: string): string
    decreases |t|
  {
    if |t| == 0 then []
    else if t[0] != '\\' || |t| == 1 then [t[0]] + ReadEscapes(t[1..])
    else if t[1] == 't' then ['\t'] + ReadEscapes(t[2..])
    else if t[1] == 'n' then ['\n'] + ReadEscapes(t[2..])
    else if t[1] == 'r' then ['\r'] + ReadEscapes(t[2..])
    else if t[1] == 'x' && |t| >= 4 && IsHex(t[2]) && IsHex(t[3]) then
      [(HexValue(t[2]) * 16 + HexValue(t[3])) as char] + ReadEscapes(t[4..])
    else [t[1]] + ReadEscapes(t[2..])
  }

  lemma HexRoundTrip(n: nat)
    requires n < 16
    ensures IsHex(HexDigit(n)) && HexValue(HexDigit(n)) == n
  {
  }

  /** Reading one escaped character back gives the character. */
  lemma ReadReprChar(c: char, q: char, rest: string)
    requires q == '\'' || q == '"'
    ensures ReadEscapes(ReprChar(c, q) + rest) == [c] + ReadEscapes(rest)
  {
    var t := ReprChar(c, q) + rest;
    if |ReprChar(c, q)| == 4 {
      var hi, lo := c as int / 16, c as int % 16;
      HexRoundTrip(hi);
      HexRoundTrip(lo);
      assert t[2] == HexDigit(hi) && t[3] == HexDigit(lo);
      assert (hi * 16 + lo) as char == c;
      assert t[4..] == rest;
    } else if |ReprChar(c, q)| == 2 {
      assert t[2..] == rest;
    } else {
      assert t[1..] == rest;
    }
  }

  /** `repr` loses nothing: reading the text between its quotes back gives the string. */
  lemma {:induction false} ReprBodyRoundTrip(s: string, q: char)
    requires q == '\'' || q == '"'
    ensures ReadEscapes(ReprBody(s, q)) == s
    decreases |s|
  {
    if |s| > 0 {
      ReprBodyRoundTrip(s[1..], q);
      ReadReprChar(s[0], q, ReprBody(s[1..], q));
    }
  }

  lemma ReprRoundTrip(s: string)
    ensures var r := PyRepr(s); ReadEscapes(r[1..|r| - 1]) == s
  {
    var r := PyRepr(s);
    assert r[1..|r| - 1] == ReprBody(s, ReprQuote(s));
    ReprBodyRoundTrip(s, ReprQuote(s));
  }

  lemma {:induction false} ReprBodyVerbatim(s: string, q: char)
    requires forall i :: 0 <= i < |s| ==> Verbatim(s[i], q)
    ensures ReprBody(s, q) == s
    decreases |s|
  {
    if |s| > 0 {
      ReprBodyVerbatim(s[1..], q);
    }
  }

  /** A path with no quote, backslash or control character comes out between single quotes
      unchanged. */
  lemma ReprPlain(s: string)
    requires forall i :: 0 <= i < |s| ==> Verbatim(s[i], '\'') && s[i] != '"'
    ensures PyRepr(s) == "'" + s + "'"
  {
    assert '\'' !in s;
    ReprBodyVerbatim(s, '\'');
  }

  /** Python's message for opening a path that does not exist; the path appears as its
      `repr`. */
  function FileNotFoundText(path: string): string {
    "[Errno 2] No such file or directory: " + PyRepr(path)
  }

  /** A Windows path shows every backslash doubled. */
  lemma ReprWindowsPath()
    ensures FileNotFoundText("C:\\a") == "[Errno 2] No such file or directory: 'C:\\\\a'"
  {
    var p := "C:\\a";
    assert ReprQuote(p) == '\'';
    assert p[1..] == ":\\a" && p[2..] == "\\a" && p[3..] == "a" && p[4..] == [];
    assert ReprChar('\\', '\'') == "\\\\";
    assert ReprBody(p, '\'') == "C:\\\\a";
  }

  /** A name holding an apostrophe, and no double quote, is put in double quotes. */
  lemma ReprApostrophe()
    ensures FileNotFoundText("O'k") == "[Errno 2] No such file or directory: \"O'k\""
  {
    var p := "O'k";
    assert ReprQuote(p) == '"' by { assert p[1] == '\''; }
    assert p[1..] == "'k" && p[2..] == "k" && p[3..] == [];
    assert ReprChar('\'', '"') == "'";
    assert ReprBody(p, '"') == p;
  }

  /** Python's message for iterating a value whose type cannot be iterated. */
  function NotIterableText(typeName: string): string {
    "'" + typeName + "' object is not iterable"
  }

  /** `list(dicom_data.<name>)`: the tag's values, or what the attribute read or `list` raises.
      An absent tag has no attribute; an empty one reads as `None` and a single-valued one as
      a bare `DSfloat`, neither of which `list` can iterate. */
  function TagList(name: string, t: DsTag): (r: Result<seq<real>>)
    ensures r.Success? <==> t.Multi?
    ensures r.Success? ==> r.value == t.values
    ensures t.Absent? ==> r == Failure(AttributeErrorText(name))
    ensures t.NoValue? ==> r == Failure(NotIterableText("NoneType"))
    ensures t.Single? ==> r == Failure(NotIterableText("DSfloat"))
  {
    match t
    case Absent => Failure(AttributeErrorText(name))
    case NoValue => Failure(NotIterableText("NoneType"))
    case Single(_) => Failure(NotIterableText("DSfloat"))
    case Multi(vs) => Success(vs)
  }

  /** get_dicom_pixel_data over the files on disk: read, then pixel_array, then position, then
      orientation; the first of these to raise supplies the error text. */
  function GetPixelData(files: map<string, FileEntry>, path: string): (r: Result<PixelResult>)
    ensures r.Success? <==>
      path in files && files[path].Dicom? && files[path].data.pixels.Success?
      && files[path].data.position.Multi? && files[path].data.orientation.Multi?
    ensures path !in files ==> r == Failure(FileNotFoundText(path))
    ensures path in files && files[path].NotDicom? ==> r == Failure(files[path].readError)
    ensures path in files && files[path].Dicom? && files[path].data.pixels.Failure? ==>
      r == Failure(files[path].data.pixels.error)
    ensures (path in files && files[path].Dicom? && files[path].data.pixels.Success?
             && !files[path].data.position.Multi?) ==>
      r == Failure(TagList("ImagePositionPatient", files[path].data.position).error)
    ensures (path in files && files[path].Dicom? && files[path].data.pixels.Success?
             && files[path].data.position.Absent?) ==> r == Failure(AttributeErrorText("ImagePositionPatient"))
    ensures (path in files && files[path].Dicom? && files[path].data.pixels.Success?
             && files[path].data.position.Multi? && !files[path].data.orientation.Multi?) ==>
      r == Failure(TagList("ImageOrientationPatient", files[path].data.orientation).error)
    ensures (path in files && files[path].Dicom? && files[path].data.pixels.Success?
             && files[path].data.position.Multi? && files[path].data.orientation.Absent?) ==>
      r == Failure(AttributeErrorText("ImageOrientationPatient"))
    ensures r.Success? ==>
      var d := files[path].data;
      var img := d.pixels.value;
      && r.value.meta == PixelMeta(d.position.values, d.orientation.values, [img.rows, img.cols])
      && |r.value.samples| == Product(r.value.meta.shape)
      && RowMajorTruncation(r.value.samples, img)
  {
    if path !in files then Failure(FileNotFoundText(path))
    else match files[path]
      case NotDicom(e) => Failure(e)
      case Dicom(d) =>
        match d.pixels
        case Failure(e) => Failure(e)
        case Success(img) =>
          match TagList("ImagePositionPatient", d.position)
          case Failure(e) => Failure(e)
          case Success(origin) =>
            match TagList("ImageOrientationPatient", d.orientation)
            case Failure(e) => Failure(e)
            case Success(orientation) =>
              var samples := Flatten(img.cells, img.cols);
              ProductOfPair(img.rows, img.cols);
              FlattenIsRowMajor(img);
              Success(PixelResult(PixelMeta(origin, orientation, [img.rows, img.cols]), samples))
  }

  /** The 2 x 3 example: [[1.9, 2.1, 3.0], [4.4, 5.5, 6.6]] gives shape [2, 3] and samples
      [1, 2, 3, 4, 5, 6]; a negative sample truncates toward zero. */
  lemma ScenarioTruncation(pos: seq<real>, ori: seq<real>)
    ensures var img := Grid(2, 3, [[1.9, 2.1, 3.0], [4.4, 5.5, 6.6]]);
            var files := map["x.dcm" := Dicom(Dataset(None, None, Multi(pos), Multi(ori), Success(img)))];
            GetPixelData(files, "x.dcm") == Success(PixelResult(PixelMeta(pos, ori, [2, 3]), [1, 2, 3, 4, 5, 6]))
    ensures Trunc(-1.5) == -1
  {
    var rows: seq<seq<real>> := [[1.9, 2.1, 3.0], [4.4, 5.5, 6.6]];
    assert Trunc(1.9) == 1 && Trunc(2.1) == 2 && Trunc(3.0) == 3;
    assert Trunc(4.4) == 4 && Trunc(5.5) == 5 && Trunc(6.6) == 6;
    assert TruncRow(rows[0]) == [1, 2, 3];
    assert TruncRow(rows[1]) == [4, 5, 6];
    assert rows[1..] == [[4.4, 5.5, 6.6]];
    assert |rows[1..][1..]| == 0;
    assert Flatten(rows, 3) == [1, 2, 3, 4, 5, 6];
  }
}
