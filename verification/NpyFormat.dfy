/** The two hand-written readers of float32 NPY files: the header parser over the file's bytes,
    reads of row ranges by offset, and streaming in batches. A value is the 32-bit word that
    encodes it. */
module NpyFormat {
  import opened Basics
  import opened Decimal

  type Byte = x: int | 0 <= x < 256

  datatype Error =
    | NotNpy | Truncated | BadVersion | NotText
    | NoKey | NoColon | NoValue | NotQuoted | Unterminated | NoTuple | NotBool
    | BadType | FortranOrder | BadDimension | NotTwoDimensional | Overflow

  datatype Result<T> = Ok(value: T) | Err(error: Error)

  /** The Rust reader decodes UTF-8, wants unsigned dimensions and checks the payload's
      length; the Go reader takes bytes as they are, lets dimensions be signed and does not
      look at the payload. */
  datatype Reader = Rust(utf8: seq<Byte> -> Option<string>) | Go

  datatype Meta = Meta(offset: nat, rows: int, cols: int)

  // ------------------------------------------------------------ little endian

  function Bound(width: nat): nat
  {
    if width == 0 then 1 else 256 * Bound(width - 1)
  }

  function LittleEndian(n: nat, width: nat): (s: seq<Byte>)
    ensures |s| == width
  {
    if width == 0 then [] else [n % 256] + LittleEndian(n / 256, width - 1)
  }

  function FromLittleEndian(s: seq<Byte>): nat
  {
    if s == [] then 0 else s[0] + 256 * FromLittleEndian(s[1..])
  }

  lemma {:induction false} LittleEndianRoundTrip(n: nat, width: nat)
    requires n < Bound(width)
    ensures FromLittleEndian(LittleEndian(n, width)) == n
  {
    if width > 0 {
      LittleEndianRoundTrip(n / 256, width - 1);
      assert LittleEndian(n, width)[1..] == LittleEndian(n / 256, width - 1);
    }
  }

  // ------------------------------------------------------------------ strings

  function FindChar(s: string, c: char): (r: Option<nat>)
    ensures r.Some? ==> r.value < |s| && s[r.value] == c && c !in s[..r.value]
    ensures r.None? ==> c !in s
  {
    var i := IndexOf(s, c);
    if i < |s| then Some(i) else None
  }

  predicate StartsWith(s: string, t: string)
  {
    |t| <= |s| && s[..|t|] == t
  }

  /** The first occurrence of a string. */
  function Find(s: string, t: string): (r: Option<nat>)
    ensures r.Some? ==> r.value + |t| <= |s| && s[r.value..][..|t|] == t
  {
    if StartsWith(s, t) then Some(0)
    else if s == "" then None
    else
      match Find(s[1..], t)
      case None => None
      case Some(i) => Some(i + 1)
  }

  predicate IsSpace(c: char)
  {
    c in " \t\n\r" || c == 11 as char || c == 12 as char || c == 0x85 as char || c == 0xa0 as char
  }

  function TrimStart(s: string): string
  {
    if s != "" && IsSpace(s[0]) then TrimStart(s[1..]) else s
  }

  function TrimEnd(s: string): string
  {
    if s != "" && IsSpace(s[|s| - 1]) then TrimEnd(s[..|s| - 1]) else s
  }

  function Trim(s: string): string
  {
    TrimEnd(TrimStart(s))
  }

  // ------------------------------------------------------------ header fields

  function Quoted(key: string): string
  {
    "'" + key + "'"
  }

  /** What follows the first occurrence of a string. */
  function Rest(s: string, t: string): Option<string>
  {
    match Find(s, t)
    case None => None
    case Some(i) => Some(s[i + |t|..])
  }

  /** What follows the colon after a quoted key. */
  function Field(header: string, key: string): Result<string>
  {
    match Rest(header, Quoted(key))
    case None => Err(NoKey)
    case Some(rest) =>
      match FindChar(rest, ':')
      case None => Err(NoColon)
      case Some(j) => Ok(TrimStart(rest[j + 1..]))
  }

  function StringField(header: string, key: string): Result<string>
  {
    match Field(header, key)
    case Err(e) => Err(e)
    case Ok(rest) =>
      if rest == "" then Err(NoValue)
      else if rest[0] != '\'' && rest[0] != '"' then Err(NotQuoted)
      else
        match FindChar(rest[1..], rest[0])
        case None => Err(Unterminated)
        case Some(k) => Ok(rest[1..][..k])
  }

  function TupleField(header: string, key: string): Result<string>
  {
    match Field(header, key)
    case Err(e) => Err(e)
    case Ok(rest) =>
      match FindChar(rest, '(')
      case None => Err(NoTuple)
      case Some(i) =>
        match FindChar(rest[i + 1..], ')')
        case None => Err(Unterminated)
        case Some(j) => Ok(rest[i + 1..][..j])
  }

  function BoolField(header: string, key: string): Result<bool>
  {
    match Field(header, key)
    case Err(e) => Err(e)
    case Ok(rest) =>
      if StartsWith(rest, "True") then Ok(true)
      else if StartsWith(rest, "False") then Ok(false)
      else Err(NotBool)
  }

  /** What a dimension has to be below. */
  function Limit(reader: Reader): nat
  {
    if reader.Go? then U64 / 2 else U64
  }

  /** Rust's `parse::<usize>` and Go's `Atoi`. */
  function Number(reader: Reader, s: string): Option<int>
  {
    var signed := s != "" && (s[0] == '+' || (reader.Go? && s[0] == '-'));
    var digits := if signed then s[1..] else s;
    if digits == "" || !AllDigits(digits) then None
    else
      var v: int := Value(digits);
      var n: int := if signed && s[0] == '-' then -v else v;
      var limit: int := Limit(reader);
      if -limit <= n < limit then Some(n) else None
  }

  /** The numbers between the commas, blank parts left out. */
  function Dimensions(reader: Reader, s: string): Result<seq<int>>
    decreases |s|
  {
    var i := FindChar(s, ',');
    var part := Trim(if i.Some? then s[..i.value] else s);
    var first := if part == "" then Ok([])
                 else
                   match Number(reader, part)
                   case None => Err(BadDimension)
                   case Some(n) => Ok([n]);
    if first.Err? then first
    else if i.None? then first
    else
      match Dimensions(reader, s[i.value + 1..])
      case Err(e) => Err(e)
      case Ok(more) => Ok(first.value + more)
  }

  // ------------------------------------------------------------------- parser

  const MAGIC: seq<Byte> := [0x93, 78, 85, 77, 80, 89]

  function Characters(bytes: seq<Byte>): (s: string)
    ensures |s| == |bytes|
  {
    seq(|bytes|, i requires 0 <= i < |bytes| => bytes[i] as char)
  }

  /** Where the header begins and how long it says it is. */
  function HeaderBounds(file: seq<Byte>): (r: Result<(nat, nat)>)
    ensures r.Ok? ==> 10 <= r.value.0 && r.value.0 + r.value.1 <= |file|
  {
    if |file| < 6 then Err(Truncated)
    else if file[..6] != MAGIC then Err(NotNpy)
    else if |file| < 8 then Err(Truncated)
    else if file[6] == 1 then
      if |file| < 10 then Err(Truncated)
      else
        var n := FromLittleEndian(file[8..10]);
        if |file| < 10 + n then Err(Truncated) else Ok((10, n))
    else if file[6] == 2 || file[6] == 3 then
      if |file| < 12 then Err(Truncated)
      else
        var n := FromLittleEndian(file[8..12]);
        if |file| < 12 + n then Err(Truncated) else Ok((12, n))
    else Err(BadVersion)
  }

  function Decode(reader: Reader, bytes: seq<Byte>): Option<string>
  {
    match reader
    case Rust(utf8) => utf8(bytes)
    case Go => Some(Characters(bytes))
  }

  function HeaderShape(reader: Reader, header: string): Result<(int, int)>
  {
    match StringField(header, "descr")
    case Err(e) => Err(e)
    case Ok(descr) =>
      if descr != "<f4" && descr != "=f4" && descr != "f4" then Err(BadType)
      else
        match BoolField(header, "fortran_order")
        case Err(e) => Err(e)
        case Ok(fortran) =>
          if fortran then Err(FortranOrder)
          else
            match TupleField(header, "shape")
            case Err(e) => Err(e)
            case Ok(shape) =>
              match Dimensions(reader, shape)
              case Err(e) => Err(e)
              case Ok(dims) => if |dims| != 2 then Err(NotTwoDimensional) else Ok((dims[0], dims[1]))
  }

  /** How long the Rust reader wants the file to be. The products are checked, but the sum is
      not, and the release build it is shipped as lets it wrap. */
  function ExpectedLength(offset: nat, rows: int, cols: int): int
  {
    (offset + rows * cols * 4) % U64
  }

  /** `parse_npy_metadata` and `parseNpyMetadata`. */
  function Parse(reader: Reader, file: seq<Byte>): Result<Meta>
  {
    match HeaderBounds(file)
    case Err(e) => Err(e)
    case Ok(bounds) =>
      var offset := bounds.0 + bounds.1;
      match Decode(reader, file[bounds.0..offset])
      case None => Err(NotText)
      case Some(text) =>
        match HeaderShape(reader, Trim(text))
        case Err(e) => Err(e)
        case Ok(shape) =>
          if reader.Rust? && shape.0 * shape.1 * 4 >= U64 then Err(Overflow)
          else if reader.Rust? && |file| < ExpectedLength(offset, shape.0, shape.1) then Err(Truncated)
          else Ok(Meta(offset, shape.0, shape.1))
  }

  // ------------------------------------------------------------------ reading

  type Row = seq<nat>

  /** The word at a place of the matrix. */
  function Cell(file: seq<Byte>, m: Meta, i: nat, j: nat): nat
    requires m.cols >= 0 && m.offset + Place(m.cols, i, j) + 4 <= |file|
  {
    var at := m.offset + Place(m.cols, i, j);
    FromLittleEndian(file[at..at + 4])
  }

  /** The byte offset of a word in the payload. */
  function Place(cols: nat, i: nat, j: nat): nat
  {
    (i * cols + j) * 4
  }

  /** Do rows up to `end` lie inside the file? */
  predicate InBounds(file: seq<Byte>, m: Meta, end: nat)
  {
    m.cols >= 0 && m.offset + end * m.cols * 4 <= |file|
  }

  lemma CellInBounds(file: seq<Byte>, m: Meta, end: nat, i: nat, j: nat)
    requires InBounds(file, m, end) && i < end && j < m.cols
    ensures m.offset + Place(m.cols, i, j) + 4 <= |file|
  {
    Below(i, end, j, m.cols);
  }

  lemma MulUp(a: nat, b: nat, w: nat)
    requires a <= b
    ensures a * w <= b * w
  {
  }

  lemma Below(i: nat, n: nat, j: nat, w: nat)
    requires i < n && j < w
    ensures i * w + j + 1 <= n * w
  {
    MulUp(i + 1, n, w);
    assert i * w + w == (i + 1) * w;
  }

  function RowAt(file: seq<Byte>, m: Meta, end: nat, i: nat): Row
    requires InBounds(file, m, end) && i < end
  {
    seq(m.cols, j requires 0 <= j < m.cols => CellInBounds(file, m, end, i, j); Cell(file, m, i, j))
  }

  /** Rows `[start, end)` of the matrix an eager reader would hold. */
  function Rows(file: seq<Byte>, m: Meta, start: nat, end: nat): (rows: seq<Row>)
    requires start <= end && InBounds(file, m, end)
    ensures |rows| == end - start
  {
    seq(end - start, i requires 0 <= i < end - start => RowAt(file, m, end, start + i))
  }

  lemma InBoundsDown(file: seq<Byte>, m: Meta, a: nat, b: nat)
    requires InBounds(file, m, b) && a <= b
    ensures InBounds(file, m, a)
  {
    assert a * m.cols <= b * m.cols by {
      assert (b - a) * m.cols >= 0;
      assert b * m.cols == a * m.cols + (b - a) * m.cols;
    }
  }

  lemma RowsSplit(file: seq<Byte>, m: Meta, a: nat, b: nat, c: nat)
    requires a <= b <= c && InBounds(file, m, c)
    ensures InBounds(file, m, b) && Rows(file, m, a, b) + Rows(file, m, b, c) == Rows(file, m, a, c)
  {
    InBoundsDown(file, m, b, c);
    hide InBounds;
    var left, right, all := Rows(file, m, a, b), Rows(file, m, b, c), Rows(file, m, a, c);
    forall i | 0 <= i < |all|
      ensures (left + right)[i] == all[i]
    {
      if i < |left| {
        RowIndependentOfEnd(file, m, b, c, a + i);
      }
    }
  }

  lemma RowIndependentOfEnd(file: seq<Byte>, m: Meta, b: nat, c: nat, i: nat)
    requires i < b <= c && InBounds(file, m, b) && InBounds(file, m, c)
    ensures RowAt(file, m, b, i) == RowAt(file, m, c, i)
  {
    forall j: nat | j < m.cols
      ensures RowAt(file, m, b, i)[j] == RowAt(file, m, c, i)[j]
    {
      CellInBounds(file, m, b, i, j);
    }
  }

  /** What is streamed over a range is the range of what an eager reader holds. */
  lemma RowsAreASlice(file: seq<Byte>, m: Meta, a: nat, b: nat, n: nat)
    requires a <= b <= n && InBounds(file, m, n)
    ensures InBounds(file, m, b) && Rows(file, m, a, b) == Rows(file, m, 0, n)[a..b]
  {
    RowsSplit(file, m, 0, a, b);
    RowsSplit(file, m, 0, b, n);
    InBoundsDown(file, m, b, n);
    InBoundsDown(file, m, a, b);
  }

  /** One row range by offset: `read_rows_from_npy` and `readRowsFromNpy`. A short file or a
      byte count past 64 bits is an error. */
  method ReadRows(file: seq<Byte>, m: Meta, start: nat, count: nat) returns (r: Result<seq<Row>>)
    requires m.cols >= 0 && |file| < U64
    ensures r.Ok? <==> count == 0 || InBounds(file, m, start + count)
    ensures r.Ok? && count > 0 ==> r.value == Rows(file, m, start, start + count)
    ensures r.Ok? && count == 0 ==> r.value == []
  {
    if count == 0 {
      return Ok([]);
    }
    var offset := m.offset + start * (m.cols * 4);
    var size := count * (m.cols * 4);
    ByteRange(m, start, count);
    if offset >= U64 || size >= U64 || offset + size > |file| {
      return Err(Truncated);
    }
    assert InBounds(file, m, start + count);
    var rows: seq<Row> := [];
    for i := 0 to count
      invariant |rows| == i
      invariant forall k :: 0 <= k < i ==> rows[k] == RowAt(file, m, start + count, start + k)
    {
      var row := ReadRow(file, m, offset, start, i, start + count);
      rows := rows + [row];
    }
    r := Ok(rows);
  }

  /** Row `i` of a range that begins at byte `offset`. */
  method ReadRow(file: seq<Byte>, m: Meta, offset: nat, ghost start: nat, i: nat, ghost end: nat) returns (row: Row)
    requires InBounds(file, m, end) && start + i < end && offset == m.offset + start * (m.cols * 4)
    ensures row == RowAt(file, m, end, start + i)
  {
    row := [];
    for j := 0 to m.cols
      invariant |row| == j
      invariant forall k :: 0 <= k < j ==> row[k] == RowAt(file, m, end, start + i)[k]
    {
      CellInBounds(file, m, end, start + i, j);
      BytePlace(m, start, i, j);
      var at := offset + Place(m.cols, i, j);
      row := row + [FromLittleEndian(file[at..at + 4])];
    }
  }

  lemma ByteRange(m: Meta, start: nat, count: nat)
    requires m.cols >= 0
    ensures start * (m.cols * 4) + count * (m.cols * 4) == (start + count) * m.cols * 4
    ensures start * (m.cols * 4) >= 0 && count * (m.cols * 4) >= 0
  {
    assert start * (m.cols * 4) == start * m.cols * 4;
    assert count * (m.cols * 4) == count * m.cols * 4;
    assert (start + count) * m.cols == start * m.cols + count * m.cols;
  }

  lemma BytePlace(m: Meta, start: nat, i: nat, j: nat)
    requires m.cols >= 0
    ensures m.offset + start * (m.cols * 4) + Place(m.cols, i, j) == m.offset + Place(m.cols, start + i, j)
  {
    assert (start + i) * m.cols == start * m.cols + i * m.cols;
    assert start * (m.cols * 4) == start * m.cols * 4;
  }

  /** How far some rounds of the streaming loop get. */
  function Reached(start: nat, end: nat, batch: nat, rounds: nat): (at: nat)
    requires start <= end
    ensures start <= at <= end
    ensures rounds > 0 && batch > 0 && start < end ==> start < at
    decreases rounds
  {
    if rounds == 0 || start == end then start else Reached(Min(start + batch, end), end, batch, rounds - 1)
  }

  /** The loop gets to the end in some number of rounds unless the batch size is zero, which the
      Rust configuration accepts: then it stays where it is for ever. */
  lemma StreamEndsIff(start: nat, end: nat, batch: nat)
    requires start <= end
    ensures (exists rounds: nat :: Reached(start, end, batch, rounds) == end) <==> batch > 0 || start == end
  {
    if batch > 0 || start == end {
      if batch > 0 {
        EnoughRounds(start, end, batch, end - start);
      }
      assert Reached(start, end, batch, end - start) == end;
    } else {
      forall rounds: nat
        ensures Reached(start, end, batch, rounds) == start
      {
        EmptyBatchStays(start, end, rounds);
      }
    }
  }

  lemma {:induction false} EnoughRounds(start: nat, end: nat, batch: nat, rounds: nat)
    requires start <= end && batch > 0 && rounds >= end - start
    ensures Reached(start, end, batch, rounds) == end
    decreases rounds
  {
    if rounds > 0 && start < end {
      EnoughRounds(Min(start + batch, end), end, batch, rounds - 1);
    }
  }

  lemma {:induction false} EmptyBatchStays(start: nat, end: nat, rounds: nat)
    requires start <= end
    ensures Reached(start, end, 0, rounds) == start
  {
    if rounds > 0 && start < end {
      EmptyBatchStays(start, end, rounds - 1);
    }
  }

  /** Some rounds of the streaming loop: batch after batch by offset, which is the slice an
      eager reader would take. It fails exactly when what it has reached is not in the file. */
  method Stream(file: seq<Byte>, m: Meta, start: nat, end: nat, batch: nat, rounds: nat)
    returns (r: Result<seq<Row>>)
    requires m.cols >= 0 && start <= end && |file| < U64
    ensures
      var at := Reached(start, end, batch, rounds);
      && (r.Ok? <==> at == start || InBounds(file, m, at))
      && (r.Ok? ==> if at == start then r.value == [] else r.value == Rows(file, m, start, at))
  {
    hide InBounds, Rows;
    var rows: seq<Row> := [];
    var at := start;
    ghost var left := rounds;
    for round := 0 to rounds
      invariant start <= at <= end && left == rounds - round
      invariant Reached(at, end, batch, left) == Reached(start, end, batch, rounds)
      invariant at == start || InBounds(file, m, at)
      invariant if at == start then rows == [] else rows == Rows(file, m, start, at)
    {
      if at == end {
        break;
      }
      var count := if end - at < batch then end - at else batch;
      var read := ReadRows(file, m, at, count);
      if read.Err? {
        NotReached(file, m, at + count, end, batch, left - 1);
        return read;
      }
      if at > start && count > 0 {
        RowsSplit(file, m, start, at, at + count);
      }
      rows := rows + read.value;
      at := at + count;
      left := left - 1;
    }
    r := Ok(rows);
  }

  lemma NotReached(file: seq<Byte>, m: Meta, at: nat, end: nat, batch: nat, rounds: nat)
    requires at <= end && !InBounds(file, m, at)
    ensures !InBounds(file, m, Reached(at, end, batch, rounds))
  {
    if InBounds(file, m, Reached(at, end, batch, rounds)) {
      InBoundsDown(file, m, at, Reached(at, end, batch, rounds));
    }
  }

  /** A file the Rust reader accepts can be read anywhere up to its row count if and only if
      the length it was checked against did not wrap; no file is 2^64 bytes long. */
  lemma AcceptedFilesReadInBounds(reader: Reader, file: seq<Byte>)
    requires reader.Rust? && |file| < U64 && Parse(reader, file).Ok?
    ensures
      var m := Parse(reader, file).value;
      && m.rows >= 0 && m.cols >= 0
      && (m.offset + m.rows * m.cols * 4 < U64 <==> forall end: nat :: end <= m.rows ==> InBounds(file, m, end))
  {
    var m := Parse(reader, file).value;
    AcceptedLength(reader, file);
    hide Parse, ExpectedLength;
    BoundsIff(file, m);
  }

  lemma BoundsIff(file: seq<Byte>, m: Meta)
    requires m.rows >= 0 && m.cols >= 0 && |file| < U64
    requires ExpectedLength(m.offset, m.rows, m.cols) <= |file|
    ensures m.offset + m.rows * m.cols * 4 < U64 <==> forall end: nat :: end <= m.rows ==> InBounds(file, m, end)
  {
    hide ExpectedLength;
    if m.offset + m.rows * m.cols * 4 < U64 {
      LengthWithoutWrap(m.offset, m.rows, m.cols);
      assert InBounds(file, m, m.rows);
      hide InBounds;
      forall end: nat | end <= m.rows
        ensures InBounds(file, m, end)
      {
        InBoundsDown(file, m, end, m.rows);
      }
    } else {
      assert !InBounds(file, m, m.rows);
    }
  }

  lemma LengthWithoutWrap(offset: nat, rows: nat, cols: nat)
    requires offset + rows * cols * 4 < U64
    ensures ExpectedLength(offset, rows, cols) == offset + rows * cols * 4
  {
    SmallRemainder(offset + rows * cols * 4, U64);
  }

  lemma {:induction false} DimensionsUnsigned(reader: Reader, s: string)
    requires reader.Rust?
    ensures Dimensions(reader, s).Ok? ==> forall n :: n in Dimensions(reader, s).value ==> 0 <= n < U64
    decreases |s|
  {
    var i := FindChar(s, ',');
    if i.Some? {
      DimensionsUnsigned(reader, s[i.value + 1..]);
    }
  }

  lemma ShapeUnsigned(reader: Reader, header: string)
    requires reader.Rust? && HeaderShape(reader, header).Ok?
    ensures HeaderShape(reader, header).value.0 >= 0 && HeaderShape(reader, header).value.1 >= 0
  {
    hide StringField, BoolField, TupleField, Dimensions;
    var dims := Dimensions(reader, TupleField(header, "shape").value);
    DimensionsUnsigned(reader, TupleField(header, "shape").value);
    assert dims.value[0] in dims.value && dims.value[1] in dims.value;
  }

  lemma AcceptedLength(reader: Reader, file: seq<Byte>)
    requires reader.Rust? && Parse(reader, file).Ok?
    ensures
      var m := Parse(reader, file).value;
      m.rows >= 0 && m.cols >= 0 && ExpectedLength(m.offset, m.rows, m.cols) <= |file|
  {
    hide HeaderShape, Trim, ExpectedLength;
    var bounds := HeaderBounds(file).value;
    ShapeUnsigned(reader, Trim(Decode(reader, file[bounds.0..bounds.0 + bounds.1]).value));
  }

  // --------------------------------------------------------------- round trip

  /** What a header tells of its array. */
  datatype Array = Array(descr: string, fortran: bool, dims: seq<nat>)

  /** The header numpy prints for an array. */
  function HeaderOf(a: Array): string
  {
    "{" + FromDescr(a)
  }

  function FromDescr(a: Array): string
  {
    Quoted("descr") + (": " + (Quoted(a.descr) + (", " + FromFortran(a))))
  }

  function FromFortran(a: Array): string
  {
    Quoted("fortran_order") + (": " + ((if a.fortran then "True" else "False") + (", " + FromShape(a.dims))))
  }

  function FromShape(dims: seq<nat>): string
  {
    Quoted("shape") + (": " + ("(" + Tuple(dims) + "), }"))
  }

  /** The inside of a Python tuple of numbers. */
  function Tuple(dims: seq<nat>): string
  {
    if dims == [] then "" else if |dims| == 1 then Print(dims[0]) + "," else Listed(dims)
  }

  function Listed(dims: seq<nat>): string
    requires dims != []
  {
    if |dims| == 1 then Print(dims[0]) else Print(dims[0]) + ("," + (" " + Listed(dims[1..])))
  }

  /** A two-dimensional array of little-endian float32 in C order. */
  function Plain(rows: nat, cols: nat): Array
  {
    Array("<f4", false, [rows, cols])
  }

  function Header(rows: nat, cols: nat): string
  {
    HeaderOf(Plain(rows, cols))
  }

  lemma PlainTuple(rows: nat, cols: nat)
    ensures Tuple([rows, cols]) == Print(rows) + ", " + Print(cols)
  {
    assert Listed([rows, cols]) == Print(rows) + ("," + (" " + Print(cols)));
  }

  lemma SkipChar(c: char, s: string, t: string)
    requires !StartsWith([c] + s, t)
    ensures Rest([c] + s, t) == Rest(s, t)
  {
    assert ([c] + s)[1..] == s;
    if Find(s, t).Some? {
      var i := Find(s, t).value;
      assert ([c] + s)[i + 1 + |t|..] == s[i + |t|..];
    }
  }

  /** Text without quotes cannot hold the beginning of a quoted key. */
  lemma {:induction false} SkipPlain(a: string, s: string, key: string)
    requires '\'' !in a
    ensures Rest(a + s, Quoted(key)) == Rest(s, Quoted(key))
  {
    hide Rest;
    if a == "" {
      assert a + s == s;
    } else {
      SkipPlain(a[1..], s, key);
      assert a + s == [a[0]] + (a[1..] + s);
      assert Quoted(key)[0] == '\'' != (a + s)[0];
      SkipChar(a[0], a[1..] + s, Quoted(key));
    }
  }

  /** Nor can a quote followed by something else than the key's first letter. */
  lemma SkipQuote(s: string, key: string)
    requires s != "" && key != "" && s[0] != key[0]
    ensures Rest(['\''] + s, Quoted(key)) == Rest(s, Quoted(key))
  {
    hide Rest;
    assert (['\''] + s)[1] == s[0] && Quoted(key)[1] == key[0];
    SkipChar('\'', s, Quoted(key));
  }

  lemma DiffersAt(text: string, t: string, p: nat)
    requires p < |t| && p < |text| && text[p] != t[p]
    ensures !StartsWith(text, t)
  {
  }

  /** Another quoted word does not begin like the quoted key. */
  lemma OtherWord(w: string, s: string, key: string)
    requires '\'' !in w && '\'' !in key && w != key
    ensures !StartsWith(Quoted(w) + s, Quoted(key))
  {
    var text, t := Quoted(w) + s, Quoted(key);
    assert text[|w| + 1] == '\'' && t[|key| + 1] == '\'';
    if |w| < |key| {
      assert t[|w| + 1] == key[|w|];
      DiffersAt(text, t, |w| + 1);
    } else if |key| < |w| {
      assert text[|key| + 1] == w[|key|];
      DiffersAt(text, t, |key| + 1);
    } else {
      assert !(forall i :: 0 <= i < |w| ==> w[i] == key[i]);
      var i :| 0 <= i < |w| && w[i] != key[i];
      assert text[i + 1] == w[i] && t[i + 1] == key[i];
      DiffersAt(text, t, i + 1);
    }
  }

  lemma SkipWord(w: string, s: string, key: string)
    requires '\'' !in w && '\'' !in key && w != key && s != "" && key != "" && s[0] != key[0]
    ensures Rest(Quoted(w) + s, Quoted(key)) == Rest(s, Quoted(key))
  {
    hide Rest;
    OtherWord(w, s, key);
    SkipQuote(s, key);
    SkipPlain(w, ['\''] + s, key);
    assert Quoted(w) + s == ['\''] + (w + (['\''] + s));
    SkipChar('\'', w + (['\''] + s), Quoted(key));
  }

  lemma FoundHere(s: string, t: string)
    ensures Rest(t + s, t) == Some(s)
  {
    assert (t + s)[..|t|] == t && (t + s)[|t|..] == s;
  }

  /** A key found with a colon and a space behind it. */
  lemma FieldAfter(header: string, key: string, value: string)
    requires Rest(header, Quoted(key)) == Some(": " + value) && value != "" && !IsSpace(value[0])
    ensures Field(header, key) == Ok(value)
  {
    var rest := ": " + value;
    assert rest[0] == ':' && FindChar(rest, ':') == Some(0);
    assert rest[1..] == " " + value && (" " + value)[1..] == value;
    assert IsSpace((" " + value)[0]);
    assert TrimStart(value) == value;
  }

  lemma {:induction false} FirstChar(a: string, c: char, b: string)
    requires c !in a
    ensures FindChar(a + ([c] + b), c) == Some(|a|)
  {
    var s := a + ([c] + b);
    if a == "" {
      assert s == [c] + b;
    } else {
      assert s[1..] == a[1..] + ([c] + b);
      FirstChar(a[1..], c, b);
    }
  }

  lemma DescrField(a: Array)
    requires '\'' !in a.descr
    ensures StringField(HeaderOf(a), "descr") == Ok(a.descr)
  {
    hide Rest, Field, FromFortran;
    var more := ", " + FromFortran(a);
    var tail := Quoted(a.descr) + more;
    SkipPlain("{", FromDescr(a), "descr");
    FoundHere(": " + tail, Quoted("descr"));
    assert tail[0] == '\'';
    FieldAfter(HeaderOf(a), "descr", tail);
    assert tail[1..] == a.descr + (['\''] + more);
    FirstChar(a.descr, '\'', more);
    assert tail[1..][..|a.descr|] == a.descr;
  }

  /** A value may be in quotes of either kind, and in none other. */
  lemma QuotedValue(header: string, key: string, quote: char, value: string, more: string)
    requires Field(header, key) == Ok([quote] + value + [quote] + more) && quote !in value
    ensures StringField(header, key) == if quote == '\'' || quote == '"' then Ok(value) else Err(NotQuoted)
  {
    hide Field, Rest;
    var rest := [quote] + value + [quote] + more;
    assert rest[0] == quote && rest[1..] == value + ([quote] + more);
    FirstChar(value, quote, more);
    assert rest[1..][..|value|] == value;
  }

  lemma FortranField(a: Array)
    requires '\'' !in a.descr && a.descr != "fortran_order"
    ensures BoolField(HeaderOf(a), "fortran_order") == Ok(a.fortran)
  {
    hide Rest, Field, FromShape;
    var key := "fortran_order";
    var tail := (if a.fortran then "True" else "False") + (", " + FromShape(a.dims));
    SkipToFortran(a, key);
    FoundHere(": " + tail, Quoted(key));
    if a.fortran {
      assert tail[0] == 'T' && tail[..4] == "True";
    } else {
      assert tail[0] == 'F' && tail[..5] == "False";
    }
    FieldAfter(HeaderOf(a), key, tail);
  }

  lemma SkipToFortran(a: Array, key: string)
    requires '\'' !in a.descr && a.descr != key
    requires key == "fortran_order" || key == "shape"
    ensures Rest(HeaderOf(a), Quoted(key)) == Rest(FromFortran(a), Quoted(key))
  {
    hide Rest, FromFortran;
    var d := FromFortran(a);
    var c := ", " + d;
    var b := Quoted(a.descr) + c;
    var rest := ": " + b;
    SkipPlain("{", FromDescr(a), key);
    SkipWord("descr", rest, key);
    SkipPlain(": ", b, key);
    SkipWord(a.descr, c, key);
    SkipPlain(", ", d, key);
  }

  lemma SkipToShape(a: Array)
    requires '\'' !in a.descr && a.descr != "shape"
    ensures Rest(HeaderOf(a), Quoted("shape")) == Rest(FromShape(a.dims), Quoted("shape"))
  {
    hide Rest, FromShape;
    var d := FromShape(a.dims);
    var c := ", " + d;
    var flag := if a.fortran then "True" else "False";
    var b := flag + c;
    var rest := ": " + b;
    SkipToFortran(a, "shape");
    SkipWord("fortran_order", rest, "shape");
    SkipPlain(": ", b, "shape");
    SkipPlain(flag, c, "shape");
    SkipPlain(", ", d, "shape");
  }

  lemma {:induction false} ListedPlain(dims: seq<nat>)
    requires dims != []
    ensures ')' !in Listed(dims)
  {
    assert ')' !in Print(dims[0]);
    if |dims| > 1 {
      ListedPlain(dims[1..]);
    }
  }

  lemma TuplePlain(dims: seq<nat>)
    ensures ')' !in Tuple(dims)
  {
    hide Print, Listed;
    if dims != [] {
      ListedPlain(dims);
      DigitsPlain(dims[0]);
    }
  }

  lemma DigitsPlain(n: nat)
    ensures ')' !in Print(n)
  {
  }

  lemma ShapeField(a: Array)
    requires '\'' !in a.descr && a.descr != "shape"
    ensures TupleField(HeaderOf(a), "shape") == Ok(Tuple(a.dims))
  {
    var inner := Tuple(a.dims);
    TuplePlain(a.dims);
    hide Rest, Field, Tuple;
    var tail := "(" + inner + "), }";
    assert tail == "(" + inner + (")" + ", }");
    SkipToShape(a);
    FoundHere(": " + tail, Quoted("shape"));
    assert tail[0] == '(';
    FieldAfter(HeaderOf(a), "shape", tail);
    Parenthesised(inner, ", }");
  }

  lemma Parenthesised(inner: string, more: string)
    requires ')' !in inner
    ensures
      var tail := "(" + inner + (")" + more);
      && FindChar(tail, '(') == Some(0)
      && FindChar(tail[1..], ')') == Some(|inner|) && tail[1..][..|inner|] == inner
  {
    var tail := "(" + inner + (")" + more);
    assert tail[0] == '(';
    assert tail[1..] == inner + ([')'] + more);
    FirstChar(inner, ')', more);
  }

  lemma DigitsTrimmed(s: string)
    requires s != "" && AllDigits(s)
    ensures Trim(s) == s && Trim(" " + s) == s
  {
    assert IsDigit(s[0]) && IsDigit(s[|s| - 1]);
    assert TrimStart(s) == s && TrimEnd(s) == s;
    assert (" " + s)[1..] == s && IsSpace((" " + s)[0]);
  }

  lemma PrintedNumber(reader: Reader, n: nat)
    ensures Number(reader, Print(n)) == if n < Limit(reader) then Some(n) else None
  {
    PrintedValue(n);
    assert IsDigit(Print(n)[0]);
  }

  /** A plus sign is skipped; a minus sign is one to the Go reader only. */
  lemma SignedNumber(reader: Reader, n: nat)
    ensures Number(reader, "+" + Print(n)) == if n < Limit(reader) then Some(n) else None
    ensures Number(reader, "-" + Print(n)) == if reader.Go? && n <= Limit(reader) then Some(0 - n) else None
  {
    PrintedValue(n);
    assert ("+" + Print(n))[1..] == Print(n) && ("-" + Print(n))[1..] == Print(n);
    assert !IsDigit('-');
  }

  ghost predicate AllBelow(dims: seq<nat>, limit: nat)
  {
    forall i :: 0 <= i < |dims| ==> dims[i] < limit
  }

  /** One number and what follows its comma. */
  lemma FirstDimension(reader: Reader, space: string, n: nat, rest: string)
    requires space == "" || space == " "
    ensures
      var s := space + (Print(n) + ("," + rest));
      Dimensions(reader, s) ==
      if n >= Limit(reader) then Err(BadDimension)
      else match Dimensions(reader, rest) case Err(e) => Err(e) case Ok(more) => Ok([n] + more)
  {
    var d := Print(n);
    var s := space + (d + ("," + rest));
    CutAtComma(space, d, rest);
    DigitsTrimmed(d);
    assert space == "" ==> space + d == d;
    PrintedNumber(reader, n);
    hide Number, Trim, Limit, FindChar, Print;
  }

  lemma CutAtComma(space: string, d: string, rest: string)
    requires ',' !in d && (space == "" || space == " ")
    ensures
      var s := space + (d + ("," + rest));
      && FindChar(s, ',') == Some(|space + d|)
      && s[..|space + d|] == space + d && s[|space + d| + 1..] == rest
  {
    var s := space + (d + ("," + rest));
    assert s == (space + d) + ([','] + rest);
    FirstChar(space + d, ',', rest);
  }

  lemma LastDimension(reader: Reader, space: string, n: nat)
    requires space == "" || space == " "
    ensures Dimensions(reader, space + Print(n)) == if n >= Limit(reader) then Err(BadDimension) else Ok([n])
  {
    hide Number, Trim, Limit;
    var d := Print(n);
    DigitsTrimmed(d);
    assert space == "" ==> space + d == d;
    PrintedNumber(reader, n);
    assert FindChar(space + d, ',').None?;
  }

  /** The dimensions of any shape are parsed back, unless one is past the reader's numbers. */
  lemma {:induction false} ListedDimensions(reader: Reader, space: string, dims: seq<nat>)
    requires dims != [] && (space == "" || space == " ")
    ensures Dimensions(reader, space + Listed(dims)) ==
            if AllBelow(dims, Limit(reader)) then Ok(dims) else Err(BadDimension)
    decreases |dims|
  {
    var n := dims[0];
    if |dims| == 1 {
      LastDimension(reader, space, n);
      assert dims == [n];
    } else {
      assert Listed(dims) == Print(n) + ("," + (" " + Listed(dims[1..])));
      hide Dimensions, Limit, Print, Listed, AllBelow;
      ListedDimensions(reader, " ", dims[1..]);
      FirstDimension(reader, space, n, " " + Listed(dims[1..]));
      FirstBelow(dims, Limit(reader));
    }
  }

  lemma FirstBelow(dims: seq<nat>, limit: nat)
    requires dims != []
    ensures AllBelow(dims, limit) <==> dims[0] < limit && AllBelow(dims[1..], limit)
    ensures [dims[0]] + dims[1..] == dims
  {
    assert dims == [dims[0]] + dims[1..];
  }

  lemma NoDimensions(reader: Reader)
    ensures Dimensions(reader, "") == Ok([])
  {
    assert FindChar("", ',').None? && Trim("") == "";
  }

  lemma BelowIff(dims: seq<nat>, limit: nat)
    ensures AllBelow(dims, limit) <==> !exists d :: d in dims && d >= limit
  {
    if !AllBelow(dims, limit) {
      var i :| 0 <= i < |dims| && dims[i] >= limit;
      assert dims[i] in dims;
    }
  }

  lemma OneDimension(reader: Reader, n: nat)
    ensures Dimensions(reader, Print(n) + ",") == if n >= Limit(reader) then Err(BadDimension) else Ok([n])
  {
    FirstDimension(reader, "", n, "");
    NoDimensions(reader);
    hide Dimensions, Limit, Print;
    assert "" + (Print(n) + ("," + "")) == Print(n) + ",";
    assert [n as int] + [] == [n];
  }

  lemma PrintedDimensions(reader: Reader, dims: seq<nat>)
    ensures Dimensions(reader, Tuple(dims)) == if AllBelow(dims, Limit(reader)) then Ok(dims) else Err(BadDimension)
  {
    hide Dimensions, Limit, Print, Listed;
    if dims == [] {
      NoDimensions(reader);
    } else if |dims| == 1 {
      OneDimension(reader, dims[0]);
      assert dims == [dims[0]];
    } else {
      ListedDimensions(reader, "", dims);
      assert "" + Listed(dims) == Listed(dims);
    }
  }

  /** What a printed header is taken for: another type, Fortran order, a dimension past the
      reader's numbers and another number of dimensions are refused, in this order; otherwise the
      dimensions are read back. */
  lemma PrintedHeader(reader: Reader, a: Array)
    requires '\'' !in a.descr && a.descr != "fortran_order" && a.descr != "shape"
    ensures HeaderShape(reader, HeaderOf(a)) ==
            if a.descr != "<f4" && a.descr != "=f4" && a.descr != "f4" then Err(BadType)
            else if a.fortran then Err(FortranOrder)
            else if exists d :: d in a.dims && d >= Limit(reader) then Err(BadDimension)
            else if |a.dims| != 2 then Err(NotTwoDimensional)
            else Ok((a.dims[0], a.dims[1]))
  {
    hide HeaderOf, StringField, BoolField, TupleField, Dimensions, Limit, Tuple;
    DescrField(a);
    FortranField(a);
    ShapeField(a);
    PrintedDimensions(reader, a.dims);
    BelowIff(a.dims, Limit(reader));
  }

  lemma PlainHeader(reader: Reader, rows: nat, cols: nat)
    ensures HeaderShape(reader, Header(rows, cols)) ==
            if rows >= Limit(reader) || cols >= Limit(reader) then Err(BadDimension) else Ok((rows, cols))
  {
    hide HeaderShape, HeaderOf, Limit;
    PrintedHeader(reader, Plain(rows, cols));
    var dims := [rows, cols];
    assert dims[0] in dims && dims[1] in dims;
  }

  // ------------------------------------------------------------- whole files

  predicate IsAscii(s: string)
  {
    forall i :: 0 <= i < |s| ==> s[i] < 128 as char
  }

  function Ascii(s: string): (bytes: seq<Byte>)
    requires IsAscii(s)
    ensures |bytes| == |s| && Characters(bytes) == s
  {
    seq(|s|, i requires 0 <= i < |s| => s[i] as int)
  }

  function Spaces(n: nat): string
  {
    seq(n, _ => ' ')
  }

  /** The header padded to the writer's alignment. */
  function Padded(rows: nat, cols: nat, pad: nat): string
  {
    Header(rows, cols) + (Spaces(pad) + "\n")
  }

  lemma {:induction false} PaddingTrimmed(h: string, pad: string)
    requires h != "" && !IsSpace(h[0]) && !IsSpace(h[|h| - 1])
    requires forall i :: 0 <= i < |pad| ==> IsSpace(pad[i])
    ensures Trim(h + pad) == h
  {
    var s := h + pad;
    assert s[0] == h[0];
    assert TrimStart(s) == s;
    EndTrimmed(h, pad);
  }

  lemma {:induction false} EndTrimmed(h: string, pad: string)
    requires h != "" && !IsSpace(h[|h| - 1])
    requires forall i :: 0 <= i < |pad| ==> IsSpace(pad[i])
    ensures TrimEnd(h + pad) == h
  {
    var s := h + pad;
    if pad == "" {
      assert s == h;
    } else {
      assert s[|s| - 1] == pad[|pad| - 1];
      assert s[..|s| - 1] == h + pad[..|pad| - 1];
      EndTrimmed(h, pad[..|pad| - 1]);
    }
  }

  lemma ShapeTextIsAscii(rows: nat, cols: nat)
    ensures IsAscii(FromShape([rows, cols]))
  {
    assert forall i :: 0 <= i < |Print(rows)| ==> IsDigit(Print(rows)[i]);
    assert forall i :: 0 <= i < |Print(cols)| ==> IsDigit(Print(cols)[i]);
    PlainTuple(rows, cols);
    hide Tuple;
    var a, b := "(" + Tuple([rows, cols]), "), }";
    assert IsAscii(Quoted("shape")) && IsAscii(": ") && IsAscii(", ") && IsAscii("(") && IsAscii(b);
    assert FromShape([rows, cols]) == Quoted("shape") + (": " + (a + b));
  }

  lemma HeaderIsAscii(rows: nat, cols: nat)
    ensures IsAscii(Header(rows, cols))
  {
    var a := Plain(rows, cols);
    hide FromShape;
    ShapeTextIsAscii(rows, cols);
    assert IsAscii(Quoted("descr")) && IsAscii(Quoted("<f4")) && IsAscii(Quoted("fortran_order"));
    assert IsAscii(": ") && IsAscii(", ") && IsAscii("False") && IsAscii("{");
    assert IsAscii(FromFortran(a));
    hide FromFortran;
    assert IsAscii(FromDescr(a));
  }

  lemma HeaderEnds(rows: nat, cols: nat)
    ensures Header(rows, cols) != "" && Header(rows, cols)[0] == '{'
        && Header(rows, cols)[|Header(rows, cols)| - 1] == '}'
  {
    var a := Plain(rows, cols);
    var s := FromShape(a.dims);
    assert s[|s| - 1] == '}';
    hide FromShape;
    var f := FromFortran(a);
    assert f[|f| - 1] == s[|s| - 1];
    hide FromFortran;
    var d := FromDescr(a);
    assert d[|d| - 1] == f[|f| - 1];
    hide FromDescr;
  }

  lemma PaddedFacts(rows: nat, cols: nat, pad: nat)
    ensures IsAscii(Padded(rows, cols, pad)) && Trim(Padded(rows, cols, pad)) == Header(rows, cols)
  {
    hide Header, Trim;
    HeaderIsAscii(rows, cols);
    HeaderEnds(rows, cols);
    assert IsSpace(' ') && IsSpace('\n') && !IsSpace('{') && !IsSpace('}');
    assert forall i :: 0 <= i < pad ==> Spaces(pad)[i] == ' ';
    PaddingTrimmed(Header(rows, cols), Spaces(pad) + "\n");
  }

  function LengthWidth(version: Byte): nat
  {
    if version == 1 then 2 else 4
  }

  function Preamble(version: Byte, length: nat): seq<Byte>
  {
    MAGIC + [version, 0] + LittleEndian(length, LengthWidth(version))
  }

  function File(version: Byte, rows: nat, cols: nat, pad: nat, payload: seq<Byte>): seq<Byte>
    requires IsAscii(Padded(rows, cols, pad))
  {
    var text := Ascii(Padded(rows, cols, pad));
    Preamble(version, |text|) + text + payload
  }

  /** UTF-8 agrees with ASCII. */
  ghost predicate DecodesAscii(reader: Reader)
  {
    reader.Rust? ==> forall bytes: seq<Byte> ::
      (forall i :: 0 <= i < |bytes| ==> bytes[i] < 128) ==> reader.utf8(bytes) == Some(Characters(bytes))
  }

  lemma PreambleRead(version: Byte, text: seq<Byte>, payload: seq<Byte>)
    requires version == 1 || version == 2 || version == 3
    requires |text| < Bound(LengthWidth(version))
    ensures
      var file := Preamble(version, |text|) + text + payload;
      var start := 8 + LengthWidth(version);
      HeaderBounds(file) == Ok((start, |text|)) && file[start..start + |text|] == text
  {
    var w := LengthWidth(version);
    var file := Preamble(version, |text|) + text + payload;
    assert file[..6] == MAGIC && file[6] == version;
    assert file[8..8 + w] == LittleEndian(|text|, w);
    LittleEndianRoundTrip(|text|, w);
  }

  /** Files that begin otherwise, or are of another version, are refused as such. */
  lemma OtherFilesRefused(reader: Reader, file: seq<Byte>)
    requires |file| >= 8
    ensures file[..6] != MAGIC ==> Parse(reader, file) == Err(NotNpy)
    ensures file[..6] == MAGIC && file[6] != 1 && file[6] != 2 && file[6] != 3 ==>
            Parse(reader, file) == Err(BadVersion)
  {
  }

  /** A printed file is read back as its rows, columns and payload offset, for any version,
      padding and payload; either reader refuses it when a dimension is past its numbers, and
      otherwise the Rust reader exactly when the shape is too large for 64 bits or the file
      shorter than the length it computes. */
  lemma FileRoundTrip(reader: Reader, version: Byte, rows: nat, cols: nat, pad: nat, payload: seq<Byte>)
    requires version == 1 || version == 2 || version == 3
    requires |Padded(rows, cols, pad)| < Bound(LengthWidth(version))
    requires DecodesAscii(reader)
    ensures IsAscii(Padded(rows, cols, pad))
    ensures
      var offset := 8 + LengthWidth(version) + |Padded(rows, cols, pad)|;
      Parse(reader, File(version, rows, cols, pad, payload)) ==
      if rows >= Limit(reader) || cols >= Limit(reader) then Err(BadDimension)
      else if reader.Rust? && rows * cols * 4 >= U64 then Err(Overflow)
      else if reader.Rust? && offset + |payload| < ExpectedLength(offset, rows, cols) then Err(Truncated)
      else Ok(Meta(offset, rows, cols))
  {
    hide Padded, HeaderBounds, HeaderShape, HeaderOf, Trim, Preamble, ExpectedLength, Limit;
    PaddedFacts(rows, cols, pad);
    var text := Ascii(Padded(rows, cols, pad));
    PreambleRead(version, text, payload);
    PreambleLength(version, |text|);
    PlainHeader(reader, rows, cols);
    assert Decode(reader, text) == Some(Padded(rows, cols, pad));
  }

  /** While the sum stays below 2^64, that means: when the payload is shorter than the shape
      asks for. */
  lemma RefusedWhenShort(reader: Reader, version: Byte, rows: nat, cols: nat, pad: nat, payload: seq<Byte>)
    requires version == 1 || version == 2 || version == 3
    requires |Padded(rows, cols, pad)| < Bound(LengthWidth(version))
    requires rows < U64 && cols < U64 && DecodesAscii(reader) && reader.Rust?
    requires 8 + LengthWidth(version) + |Padded(rows, cols, pad)| + rows * cols * 4 < U64
    ensures IsAscii(Padded(rows, cols, pad))
    ensures Parse(reader, File(version, rows, cols, pad, payload)).Ok? <==> |payload| >= rows * cols * 4
  {
    hide Parse, Padded, DecodesAscii, IsAscii, File, LengthWidth, Bound, ExpectedLength;
    FileRoundTrip(reader, version, rows, cols, pad, payload);
    LengthWithoutWrap(8 + LengthWidth(version) + |Padded(rows, cols, pad)|, rows, cols);
  }

  function Pow10(k: nat): nat
  {
    if k == 0 then 1 else 10 * Pow10(k - 1)
  }

  lemma {:induction false} PrintedLength(n: nat, k: nat)
    requires k > 0 && n < Pow10(k) && (k > 1 ==> n >= Pow10(k - 1))
    ensures |Print(n)| == k
  {
    if k > 1 {
      PrintedLength(n / 10, k - 1);
    }
  }

  /** 2^62 - 1 rows of one column: the size is four bytes short of 2^64, so with the offset
      the length wraps to less than the header. */
  const HUGE_ROWS: nat := 0x3FFF_FFFF_FFFF_FFFF

  lemma HugeHeader()
    ensures |Padded(HUGE_ROWS, 1, 40)| == 118
  {
    TenPowers();
    PrintedLength(HUGE_ROWS, 19);
    PrintedLength(1, 1);
    HeaderLength(HUGE_ROWS, 1);
  }

  lemma TenPowers()
    ensures Pow10(18) == 1_000_000_000_000_000_000 && Pow10(19) == 10_000_000_000_000_000_000
  {
    assert Pow10(6) == 1_000_000;
    assert Pow10(12) == 1_000_000_000_000;
  }

  lemma HeaderLength(rows: nat, cols: nat)
    ensures |Header(rows, cols)| == 57 + |Print(rows)| + |Print(cols)|
  {
    var a := Plain(rows, cols);
    PlainTuple(rows, cols);
    hide Tuple;
    assert |FromShape(a.dims)| == 16 + |Print(rows)| + |Print(cols)|;
    hide FromShape;
    assert |FromFortran(a)| == 24 + |FromShape(a.dims)|;
    hide FromFortran;
    assert |FromDescr(a)| == 16 + |FromFortran(a)|;
  }

  /** A file of a header alone, 128 bytes, is accepted with 2^62 - 1 rows, and not one of them
      can be read. */
  lemma WrappedLengthIsAccepted(reader: Reader)
    requires reader.Rust? && DecodesAscii(reader)
    ensures IsAscii(Padded(HUGE_ROWS, 1, 40))
    ensures
      var file := File(1, HUGE_ROWS, 1, 40, []);
      && |file| == 128
      && Parse(reader, file) == Ok(Meta(128, HUGE_ROWS, 1))
      && !InBounds(file, Meta(128, HUGE_ROWS, 1), 1)
  {
    HugeHeader();
    hide Padded, Parse, DecodesAscii, IsAscii;
    FileRoundTrip(reader, 1, HUGE_ROWS, 1, 40, []);
    PreambleLength(1, 118);
  }

  lemma PreambleLength(version: Byte, length: nat)
    ensures |Preamble(version, length)| == 8 + LengthWidth(version)
  {
  }

  // ------------------------------------------------------------------ payload

  const U32 := 0x1_0000_0000

  function Words(row: Row): (s: seq<Byte>)
    ensures |s| == 4 * |row|
  {
    if row == [] then [] else Words(row[..|row| - 1]) + LittleEndian(row[|row| - 1], 4)
  }

  function Payload(m: seq<Row>): seq<Byte>
  {
    if m == [] then [] else Payload(m[..|m| - 1]) + Words(m[|m| - 1])
  }

  ghost predicate IsMatrix(m: seq<Row>, cols: nat)
  {
    && (forall i :: 0 <= i < |m| ==> |m[i]| == cols)
    && (forall i, j :: 0 <= i < |m| && 0 <= j < |m[i]| ==> m[i][j] < U32)
  }

  lemma {:induction false} WordsAt(row: Row, j: nat)
    requires j < |row|
    ensures Words(row)[4 * j..4 * j + 4] == LittleEndian(row[j], 4)
  {
    var n := |row| - 1;
    if j < n {
      WordsAt(row[..n], j);
    }
  }

  lemma {:induction false} PayloadLength(m: seq<Row>, cols: nat)
    requires IsMatrix(m, cols)
    ensures |Payload(m)| == |m| * cols * 4
  {
    if m != [] {
      var n := |m| - 1;
      MatrixFront(m, cols);
      assert |Words(m[n])| == 4 * cols;
      hide IsMatrix, Words;
      PayloadLength(m[..n], cols);
      NextLength(n, cols);
    }
  }

  lemma MatrixFront(m: seq<Row>, cols: nat)
    requires IsMatrix(m, cols) && m != []
    ensures IsMatrix(m[..|m| - 1], cols) && |m[|m| - 1]| == cols
  {
  }

  lemma NextLength(n: nat, cols: nat)
    ensures (n + 1) * cols * 4 == n * cols * 4 + 4 * cols
  {
    assert (n + 1) * cols == n * cols + cols;
  }

  lemma {:induction false} PayloadAt(m: seq<Row>, cols: nat, i: nat, j: nat)
    requires IsMatrix(m, cols) && i < |m| && j < cols
    ensures Place(cols, i, j) + 4 <= |Payload(m)|
    ensures Payload(m)[Place(cols, i, j)..Place(cols, i, j) + 4] == LittleEndian(m[i][j], 4)
  {
    var n := |m| - 1;
    var front := Payload(m[..n]);
    assert Payload(m) == front + Words(m[n]);
    if i < n {
      hide Place;
      PayloadAt(m[..n], cols, i, j);
      SliceOfFront(front, Words(m[n]), Place(cols, i, j), 4);
    } else {
      PayloadLength(m[..n], cols);
      assert Place(cols, i, j) == |front| + 4 * j;
      WordsAt(m[n], j);
      hide Payload, Words, Place;
      SliceOfBack(front, Words(m[n]), 4 * j, 4);
    }
  }

  lemma SliceOfFront(a: seq<Byte>, b: seq<Byte>, at: nat, n: nat)
    requires at + n <= |a|
    ensures (a + b)[at..at + n] == a[at..at + n]
  {
  }

  lemma SliceOfBack(a: seq<Byte>, b: seq<Byte>, at: nat, n: nat)
    requires at + n <= |b|
    ensures (a + b)[|a| + at..|a| + at + n] == b[at..at + n]
  {
  }

  /** The matrix an eager reader would see in a written file is the one that was written. */
  lemma WrittenMatrix(prefix: seq<Byte>, m: seq<Row>, cols: nat)
    requires IsMatrix(m, cols)
    ensures
      var meta := Meta(|prefix|, |m|, cols);
      InBounds(prefix + Payload(m), meta, |m|) && Rows(prefix + Payload(m), meta, 0, |m|) == m
  {
    var meta := Meta(|prefix|, |m|, cols);
    var file := prefix + Payload(m);
    PayloadLength(m, cols);
    forall i | 0 <= i < |m|
      ensures RowAt(file, meta, |m|, i) == m[i]
    {
      forall j | 0 <= j < cols
        ensures RowAt(file, meta, |m|, i)[j] == m[i][j]
      {
        CellInBounds(file, meta, |m|, i, j);
        PayloadAt(m, cols, i, j);
        WrittenCell(prefix, Payload(m), meta, i, j, m[i][j]);
      }
    }
  }

  lemma WrittenCell(prefix: seq<Byte>, payload: seq<Byte>, meta: Meta, i: nat, j: nat, word: nat)
    requires meta.cols >= 0 && meta.offset == |prefix| && word < U32
    requires Place(meta.cols, i, j) + 4 <= |payload|
    requires payload[Place(meta.cols, i, j)..Place(meta.cols, i, j) + 4] == LittleEndian(word, 4)
    ensures Cell(prefix + payload, meta, i, j) == word
  {
    hide Place, LittleEndian, FromLittleEndian;
    WordAfter(prefix, payload, Place(meta.cols, i, j), word);
  }

  lemma WordAfter(prefix: seq<Byte>, s: seq<Byte>, at: nat, n: nat)
    requires at + 4 <= |s| && s[at..at + 4] == LittleEndian(n, 4) && n < U32
    ensures FromLittleEndian((prefix + s)[|prefix| + at..|prefix| + at + 4]) == n
  {
    hide LittleEndian, FromLittleEndian;
    SliceOfBack(prefix, s, at, 4);
    assert n < Bound(4);
    LittleEndianRoundTrip(n, 4);
  }

  /** A writer's file for a matrix. */
  function MatrixFile(version: Byte, m: seq<Row>, cols: nat, pad: nat): seq<Byte>
    requires IsAscii(Padded(|m|, cols, pad))
  {
    File(version, |m|, cols, pad, Payload(m))
  }

  lemma MatrixFileParsed(reader: Reader, version: Byte, m: seq<Row>, cols: nat, pad: nat, offset: nat)
    requires version == 1 || version == 2 || version == 3
    requires |Padded(|m|, cols, pad)| < Bound(LengthWidth(version))
    requires |m| < Limit(reader) && cols < Limit(reader) && (reader.Rust? ==> |m| * cols * 4 < U64)
    requires IsMatrix(m, cols) && DecodesAscii(reader) && IsAscii(Padded(|m|, cols, pad))
    requires offset == 8 + LengthWidth(version) + |Padded(|m|, cols, pad)|
    ensures Parse(reader, MatrixFile(version, m, cols, pad)) == Ok(Meta(offset, |m|, cols))
  {
    hide Parse, Padded, IsMatrix, DecodesAscii, IsAscii, Payload, File, LengthWidth, Bound, Limit;
    PayloadLength(m, cols);
    FileRoundTrip(reader, version, |m|, cols, pad, Payload(m));
  }

  lemma MatrixFileRows(version: Byte, m: seq<Row>, cols: nat, pad: nat, offset: nat)
    requires IsMatrix(m, cols) && IsAscii(Padded(|m|, cols, pad))
    requires offset == 8 + LengthWidth(version) + |Padded(|m|, cols, pad)|
    ensures
      var file := MatrixFile(version, m, cols, pad);
      InBounds(file, Meta(offset, |m|, cols), |m|) && Rows(file, Meta(offset, |m|, cols), 0, |m|) == m
  {
    hide Padded, IsMatrix, IsAscii, Payload, InBounds, Rows, LengthWidth, Preamble;
    var text := Ascii(Padded(|m|, cols, pad));
    PreambleLength(version, |text|);
    WrittenMatrix(Preamble(version, |text|) + text, m, cols);
  }

  /** From end to end: either reader finds in a written file the matrix that was written. */
  lemma MatrixRoundTrip(reader: Reader, version: Byte, m: seq<Row>, cols: nat, pad: nat)
    requires version == 1 || version == 2 || version == 3
    requires |Padded(|m|, cols, pad)| < Bound(LengthWidth(version))
    requires |m| < Limit(reader) && cols < Limit(reader) && (reader.Rust? ==> |m| * cols * 4 < U64)
    requires IsMatrix(m, cols) && DecodesAscii(reader)
    ensures IsAscii(Padded(|m|, cols, pad))
    ensures
      var file := MatrixFile(version, m, cols, pad);
      && Parse(reader, file).Ok?
      && InBounds(file, Parse(reader, file).value, |m|)
      && Rows(file, Parse(reader, file).value, 0, |m|) == m
  {
    hide Parse, Padded, IsMatrix, DecodesAscii, IsAscii, MatrixFile, InBounds, Rows, LengthWidth, Bound;
    PaddedFacts(|m|, cols, pad);
    var offset := 8 + LengthWidth(version) + |Padded(|m|, cols, pad)|;
    MatrixFileParsed(reader, version, m, cols, pad, offset);
    MatrixFileRows(version, m, cols, pad, offset);
  }
}
