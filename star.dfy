/** `Star.load_bsc`: the Yale Bright Star Catalogue in its binary form is a 28-byte
    header followed by fixed 32-byte records. The file's bytes are the input here;
    opening and reading the file is not part of the model. */
module Star {
  import opened BigEndian
  import opened StructCodec
  import opened Results

  const HeaderSize: nat := 28
  const RecordSize: nat := 32

  /** `'>iiii4?ii'`: four int32, four booleans, two int32. */
  const HeaderFormat: seq<Code> := [Int32, Int32, Int32, Int32, Bool, Bool, Bool, Bool, Int32, Int32]

  /** `'>fdd2chff'`: catalogue number (f), right ascension and declination (d, d),
      two spectral-type characters (2c), visual magnitude (h), and the two proper
      motions (f, f). */
  const RecordFormat: seq<Code> := [Float32, Float64, Float64, Char, Char, Int16, Float32, Float32]

  /** The two ways `load_bsc` fails on a malformed file. */
  datatype LoadError =
    | HeaderError(e: UnpackError)    // struct.error from the header unpack
    | PartialRecord(bodyLength: nat) // the assertion in _num_datagrams

  /** The unpacked header tuple and one unpacked tuple per record, in file order. */
  datatype Catalog = Catalog(header: seq<Value>, records: seq<seq<Value>>)

  /** The file as `file.read(28)` and then `file.read()` divide it: at most 28 header
      bytes, and the rest, if any, is the body. */
  function SplitFile(file: seq<byte>): (parts: (seq<byte>, seq<byte>))
    ensures parts.0 + parts.1 == file
    ensures |parts.0| == if |file| < HeaderSize then |file| else HeaderSize
  {
    if |file| < HeaderSize then (file, []) else (file[..HeaderSize], file[HeaderSize..])
  }

  /** `_num_datagrams`: the number of whole records in the body, or the assertion
      failure when the body is not a whole number of records. */
  function NumDatagrams(data: seq<byte>): (r: Result<nat, LoadError>)
    ensures r.Ok? <==> |data| % RecordSize == 0
    ensures r.Ok? ==> r.value * RecordSize == |data|
    ensures r.Err? ==> r.error == PartialRecord(|data|)
  {
    if |data| % RecordSize != 0 then Err(PartialRecord(|data|)) else Ok(|data| / RecordSize)
  }

  /** The bytes of record i: `file_content[offset:offset+32]` with `offset = i * 32`. */
  function RecordAt(body: seq<byte>, i: nat): (rec: seq<byte>)
    requires (i + 1) * RecordSize <= |body|
    ensures |rec| == RecordSize
  {
    body[i * RecordSize..i * RecordSize + RecordSize]
  }

  /** `struct.unpack('>iiii4?ii', header)` on a header of the right size. */
  function UnpackHeader(head: seq<byte>): (h: seq<Value>)
    requires |head| == HeaderSize
    ensures FitsAll(HeaderFormat, h)
  {
    FormatSizes();
    UnpackAllFits(HeaderFormat, head);
    UnpackAll(HeaderFormat, head)
  }

  /** `struct.unpack('>fdd2chff', rec)` on one 32-byte record. */
  function UnpackRecord(rec: seq<byte>): (dat: seq<Value>)
    requires |rec| == RecordSize
    ensures FitsAll(RecordFormat, dat)
  {
    FormatSizes();
    UnpackAllFits(RecordFormat, rec);
    UnpackAll(RecordFormat, rec)
  }

  /** The records of a body, decoded front to back. */
  function DecodeRecords(body: seq<byte>): (rs: seq<seq<Value>>)
    requires |body| % RecordSize == 0
    ensures |rs| * RecordSize == |body|
    ensures forall i :: 0 <= i < |rs| ==> FitsAll(RecordFormat, rs[i])
    decreases |body|
  {
    if body == [] then []
    else [UnpackRecord(body[..RecordSize])] + DecodeRecords(body[RecordSize..])
  }

  /** What `load_bsc` decodes from a file: the header, then every record. */
  function DecodeCatalog(file: seq<byte>): (r: Result<Catalog, LoadError>)
    ensures r.Ok? <==> |file| >= HeaderSize && (|file| - HeaderSize) % RecordSize == 0
    ensures |file| < HeaderSize ==> r == Err(HeaderError(SizeMismatch(HeaderSize, |file|)))
    ensures (|file| >= HeaderSize && (|file| - HeaderSize) % RecordSize != 0) ==>
              r == Err(PartialRecord(|file| - HeaderSize))
    ensures r.Ok? ==> FitsAll(HeaderFormat, r.value.header)
    ensures r.Ok? ==> |r.value.records| * RecordSize == |file| - HeaderSize
  {
    FormatSizes();
    var (head, body) := SplitFile(file);
    match Unpack(HeaderFormat, head)
    case Err(e) => Err(HeaderError(e))
    case Ok(header) =>
      match NumDatagrams(body)
      case Err(e) => Err(e)
      case Ok(_) => Ok(Catalog(header, DecodeRecords(body)))
  }

  /** A well-formed file decodes to its first 28 bytes unpacked as the header and the
      remaining bytes decoded as records. */
  lemma DecodeCatalogOk(file: seq<byte>)
    requires |file| >= HeaderSize && (|file| - HeaderSize) % RecordSize == 0
    ensures DecodeCatalog(file)
         == Ok(Catalog(UnpackHeader(file[..HeaderSize]), DecodeRecords(file[HeaderSize..])))
  {
    FormatSizes();
  }

  /** n records take a whole number of record strides. */
  lemma WholeRecords(length: int, n: nat)
    requires length == n * RecordSize
    ensures length % RecordSize == 0 && length / RecordSize == n
  {
  }

  /** Record i of n lies inside a body of n records. */
  lemma RecordInBody(i: nat, n: nat)
    requires i < n
    ensures (i + 1) * RecordSize <= n * RecordSize
  {
  }

  /** Record i + 1 of a body is record i of the body without its first record. */
  lemma RecordAtShift(body: seq<byte>, i: nat)
    requires (i + 2) * RecordSize <= |body|
    ensures RecordAt(body[RecordSize..], i) == RecordAt(body, i + 1)
  {
  }

  lemma DecodeRecordsShift(body: seq<byte>, i: nat)
    requires |body| % RecordSize == 0 && 0 < i < |body| / RecordSize
    ensures DecodeRecords(body)[i] == DecodeRecords(body[RecordSize..])[i - 1]
  {
  }

  /** Record i of the decoded body is the unpacked i-th 32-byte slice. */
  lemma {:induction false} DecodeRecordsAt(body: seq<byte>, i: nat)
    requires |body| % RecordSize == 0 && i < |body| / RecordSize
    ensures (i + 1) * RecordSize <= |body|
    ensures DecodeRecords(body)[i] == UnpackRecord(RecordAt(body, i))
    decreases i
  {
    FormatSizes();
    if i > 0 {
      DecodeRecordsShift(body, i);
      DecodeRecordsAt(body[RecordSize..], i - 1);
      RecordAtShift(body, i - 1);
    }
  }

  /** Decoding two whole-record bodies one after the other decodes their concatenation. */
  lemma {:induction false} DecodeRecordsAppend(a: seq<byte>, b: seq<byte>)
    requires |a| % RecordSize == 0 && |b| % RecordSize == 0
    ensures DecodeRecords(a + b) == DecodeRecords(a) + DecodeRecords(b)
    decreases |a|
  {
    if a == [] {
      assert a + b == b;
    } else {
      assert (a + b)[..RecordSize] == a[..RecordSize];
      assert (a + b)[RecordSize..] == a[RecordSize..] + b;
      DecodeRecordsAppend(a[RecordSize..], b);
    }
  }

  /** The records before index + 1 are the records before index and then record index. */
  lemma DecodeRecordsExtend(body: seq<byte>, index: nat)
    requires (index + 1) * RecordSize <= |body|
    ensures index * RecordSize + RecordSize <= |body|
    ensures DecodeRecords(body[..(index + 1) * RecordSize])
         == DecodeRecords(body[..index * RecordSize]) + [UnpackRecord(RecordAt(body, index))]
  {
    FormatSizes();
    var rec := RecordAt(body, index);
    assert body[..(index + 1) * RecordSize] == body[..index * RecordSize] + rec;
    DecodeRecordsAppend(body[..index * RecordSize], rec);
    assert rec[RecordSize..] == [];
    assert rec[..RecordSize] == rec;
  }

  /** The slice that the loop hands to `struct.unpack` at `index` is record `index`,
      and it always has the 32 bytes the record format needs. */
  lemma RecordSliceUnpacks(body: seq<byte>, index: nat)
    requires |body| % RecordSize == 0 && index < |body| / RecordSize
    ensures (index + 1) * RecordSize <= |body|
    ensures Unpack(RecordFormat, body[index * RecordSize..index * RecordSize + RecordSize])
         == Ok(UnpackRecord(RecordAt(body, index)))
  {
    FormatSizes();
    RecordInBody(index, |body| / RecordSize);
  }

  /** `load_bsc` up to the end of its record loop: unpack the header, count the
      records, and unpack record `index` from `offset = index * 32`. */
  method LoadBsc(file: seq<byte>) returns (r: Result<Catalog, LoadError>)
    ensures r == DecodeCatalog(file)
  {
    FormatSizes();
    var parts := SplitFile(file);
    var fileHeader, fileContent := parts.0, parts.1;
    var header := Unpack(HeaderFormat, fileHeader);
    if header.Err? {
      return Err(HeaderError(header.error));
    }
    var count := NumDatagrams(fileContent);
    if count.Err? {
      return Err(count.error);
    }
    var records: seq<seq<Value>> := [];
    for index := 0 to count.value
      invariant index * RecordSize <= |fileContent|
      invariant records == DecodeRecords(fileContent[..index * RecordSize])
    {
      RecordSliceUnpacks(fileContent, index);
      DecodeRecordsExtend(fileContent, index);
      var offset := index * RecordSize;
      var dat := Unpack(RecordFormat, fileContent[offset..offset + RecordSize]);
      records := records + [dat.value];
    }
    assert fileContent[..count.value * RecordSize] == fileContent;
    DecodeCatalogOk(file);
    return Ok(Catalog(header.value, records));
  }

  // ---------------------------------------------------------------------------
  // The end of `load_bsc` as written

  /** How `load_bsc` as written ends once the header and the count succeed: the first
      pass of the loop stops at `ra.append()` at the latest, a call without its argument
      (a `TypeError`), and a loop that never runs leaves `dat` unbound for the final
      `print(dat)` (an `UnboundLocalError`). The skyfield calls before `ra.append()` are
      taken to succeed. */
  datatype AsWrittenError =
    | Failed(e: LoadError)
    | AppendWithoutArgument
    | UnboundDat

  /** `load_bsc` as written, end to end: it never returns a catalogue. */
  function LoadBscAsWritten(file: seq<byte>): (r: Result<Catalog, AsWrittenError>)
  {
    match DecodeCatalog(file)
    case Err(e) => Err(Failed(e))
    case Ok(c) => if |c.records| > 0 then Err(AppendWithoutArgument) else Err(UnboundDat)
  }

  /** Every file makes `load_bsc` as written raise: a well-formed file with records
      stops at the argument-less append, a header-only file at the unbound `dat`,
      and only malformed files fail where `LoadBsc` fails. */
  lemma AsWrittenAlwaysRaises(file: seq<byte>)
    ensures LoadBscAsWritten(file).Err?
    ensures DecodeCatalog(file).Err? ==> LoadBscAsWritten(file) == Err(Failed(DecodeCatalog(file).error))
    ensures DecodeCatalog(file).Ok? && |file| > HeaderSize ==> LoadBscAsWritten(file) == Err(AppendWithoutArgument)
    ensures |file| == HeaderSize ==> LoadBscAsWritten(file) == Err(UnboundDat)
  {
    if |file| == HeaderSize {
      HeaderOnlyFile(file);
    }
  }

  /** The smallest file with one record: all zero bytes, 28 of header and 32 of
      record. `LoadBsc` decodes it; `load_bsc` as written raises on it. */
  lemma OneRecordFile()
    ensures var file := seq(HeaderSize + RecordSize, _ => 0 as byte);
      LoadBscAsWritten(file) == Err(AppendWithoutArgument) && DecodeCatalog(file).Ok? &&
      |DecodeCatalog(file).value.records| == 1
  {
    var file := seq(HeaderSize + RecordSize, _ => 0 as byte);
    AsWrittenAlwaysRaises(file);
  }

  /** A file of exactly 28 bytes has an empty body: zero records, so the record loop
      never runs. */
  lemma HeaderOnlyFile(file: seq<byte>)
    requires |file| == HeaderSize
    ensures NumDatagrams(SplitFile(file).1) == Ok(0)
    ensures DecodeCatalog(file) == Ok(Catalog(UnpackHeader(file), []))
  {
    FormatSizes();
    assert file[..HeaderSize] == file;
  }

  /** Byte p of the body belongs to exactly one record slice, number p / 32, where it
      sits at position p % 32: the slices are disjoint and cover the body. */
  lemma ByteInOneRecord(body: seq<byte>, p: nat, i: nat)
    requires |body| % RecordSize == 0 && p < |body| && i < |body| / RecordSize
    ensures (i * RecordSize <= p < i * RecordSize + RecordSize) <==> i == p / RecordSize
    ensures p / RecordSize < |body| / RecordSize
    ensures RecordAt(body, p / RecordSize)[p % RecordSize] == body[p]
  {
    RecordInBody(p / RecordSize, |body| / RecordSize);
  }

  /** Where each field of `'>fdd2chff'` starts: f at 0, d at 4, d at 12, c at 20,
      c at 21, h at 22, f at 24 and f at 28; the last entry is where the last field
      ends, the 32-byte record stride. */
  const RecordFieldOffsets: seq<nat> := [0, 4, 12, 20, 21, 22, 24, 28, 32]

  /** Where each field of `'>iiii4?ii'` starts, and (last entry) where the header ends. */
  const HeaderFieldOffsets: seq<nat> := [0, 4, 8, 12, 16, 17, 18, 19, 20, 24, 28]

  lemma RecordOffsets(k: nat)
    requires k <= |RecordFormat|
    ensures Offset(RecordFormat, k) == RecordFieldOffsets[k]
  {
  }

  lemma HeaderOffsets(k: nat)
    requires k <= |HeaderFormat|
    ensures Offset(HeaderFormat, k) == HeaderFieldOffsets[k]
  {
  }

  /** The two formats occupy exactly the header size and the record stride: the field
      widths 4+8+8+1+1+2+4+4 of a record add up to 32, with no padding. */
  lemma FormatSizes()
    ensures CalcSize(HeaderFormat) == HeaderSize
    ensures CalcSize(RecordFormat) == RecordSize
  {
    HeaderOffsets(|HeaderFormat|);
    RecordOffsets(|RecordFormat|);
  }

  /** Field k of an unpacked record is decoded from the record's bytes between the
      k-th and the (k+1)-th entry of `RecordFieldOffsets`, and from no other byte. */
  lemma RecordField(rec: seq<byte>, k: nat)
    requires |rec| == RecordSize && k < |RecordFormat|
    ensures RecordFieldOffsets[k] + Width(RecordFormat[k]) == RecordFieldOffsets[k + 1] <= RecordSize
    ensures UnpackRecord(rec)[k]
         == DecodeField(RecordFormat[k], rec[RecordFieldOffsets[k]..RecordFieldOffsets[k + 1]])
  {
    FormatSizes();
    RecordOffsets(k);
    RecordOffsets(k + 1);
    UnpackAllAt(RecordFormat, rec, k);
  }

  /** Field k of the unpacked header is decoded from the header bytes between the k-th
      and the (k+1)-th entry of `HeaderFieldOffsets`. */
  lemma HeaderField(head: seq<byte>, k: nat)
    requires |head| == HeaderSize && k < |HeaderFormat|
    ensures HeaderFieldOffsets[k] + Width(HeaderFormat[k]) == HeaderFieldOffsets[k + 1] <= HeaderSize
    ensures UnpackHeader(head)[k]
         == DecodeField(HeaderFormat[k], head[HeaderFieldOffsets[k]..HeaderFieldOffsets[k + 1]])
  {
    FormatSizes();
    HeaderOffsets(k);
    HeaderOffsets(k + 1);
    UnpackAllAt(HeaderFormat, head, k);
  }

  /** The two-byte field at offset 22 is the signed 16-bit magnitude, not padding. */
  lemma MagnitudeIsInt16At22(rec: seq<byte>)
    requires |rec| == RecordSize
    ensures UnpackRecord(rec)[5] == Int(Signed(rec[22..24]))
  {
    RecordField(rec, 5);
  }

  /** A header flag is true exactly when its byte is nonzero. */
  lemma HeaderFlags(head: seq<byte>, j: nat)
    requires |head| == HeaderSize && j < 4
    ensures UnpackHeader(head)[4 + j] == Flag(head[16 + j] != 0)
  {
    HeaderField(head, 4 + j);
  }

  /** The header's only booleans are its four flag bytes, 16 to 19. */
  lemma HeaderCanonical(head: seq<byte>)
    requires |head| == HeaderSize && forall j :: 16 <= j < 20 ==> head[j] <= 1
    ensures |head| == CalcSize(HeaderFormat) && CanonicalAll(HeaderFormat, head)
  {
    FormatSizes();
    forall k | 0 <= k < |HeaderFormat|
      ensures CanonicalField(HeaderFormat[k], FieldBytes(HeaderFormat, head, k))
    {
      HeaderOffsets(k);
    }
  }

  /** The catalogue writer's side: records packed one after another. */
  function PackRecords(rs: seq<seq<Value>>): (body: seq<byte>)
    requires forall i :: 0 <= i < |rs| ==> FitsAll(RecordFormat, rs[i])
    ensures |body| == |rs| * RecordSize
  {
    FormatSizes();
    if rs == [] then [] else PackAll(RecordFormat, rs[0]) + PackRecords(rs[1..])
  }

  lemma {:induction false} DecodeOfPackRecords(rs: seq<seq<Value>>)
    requires forall i :: 0 <= i < |rs| ==> FitsAll(RecordFormat, rs[i])
    ensures DecodeRecords(PackRecords(rs)) == rs
  {
    FormatSizes();
    if rs != [] {
      var body := PackRecords(rs);
      var first := PackAll(RecordFormat, rs[0]);
      assert body[..RecordSize] == first;
      assert body[RecordSize..] == PackRecords(rs[1..]);
      UnpackOfPack(RecordFormat, rs[0]);
      DecodeOfPackRecords(rs[1..]);
      assert rs == [rs[0]] + rs[1..];
    }
  }

  /** A format without booleans has no non-canonical bytes. */
  lemma CanonicalWithoutBool(fmt: seq<Code>, bs: seq<byte>)
    requires |bs| == CalcSize(fmt) && Bool !in fmt
    ensures CanonicalAll(fmt, bs)
  {
    forall k | 0 <= k < |fmt|
      ensures CanonicalField(fmt[k], FieldBytes(fmt, bs, k))
    {
      assert fmt[k] in fmt;
    }
  }

  /** Re-packing the decoded records gives back the body byte for byte, in order: no
      byte of a record is padding that decoding skips. */
  lemma {:induction false} PackOfDecodeRecords(body: seq<byte>)
    requires |body| % RecordSize == 0
    ensures PackRecords(DecodeRecords(body)) == body
    decreases |body|
  {
    FormatSizes();
    if body != [] {
      var rs := DecodeRecords(body);
      CanonicalWithoutBool(RecordFormat, body[..RecordSize]);
      PackOfUnpack(RecordFormat, body[..RecordSize]);
      PackOfDecodeRecords(body[RecordSize..]);
      assert rs[1..] == DecodeRecords(body[RecordSize..]);
      assert body == body[..RecordSize] + body[RecordSize..];
    }
  }

  /** A file written as a packed header followed by packed records decodes to exactly
      that header and those records. */
  lemma CatalogRoundTrip(header: seq<Value>, rs: seq<seq<Value>>)
    requires FitsAll(HeaderFormat, header)
    requires forall i :: 0 <= i < |rs| ==> FitsAll(RecordFormat, rs[i])
    ensures DecodeCatalog(PackAll(HeaderFormat, header) + PackRecords(rs)) == Ok(Catalog(header, rs))
  {
    HeaderRoundTrip(header);
    var head, body := PackAll(HeaderFormat, header), PackRecords(rs);
    WholeRecords(|body|, |rs|);
    DecodeOfPackRecords(rs);
    DecodeHeaderAndBody(head, body);
  }

  /** The header packs to 28 bytes that unpack to it again. */
  lemma HeaderRoundTrip(header: seq<Value>)
    requires FitsAll(HeaderFormat, header)
    ensures |PackAll(HeaderFormat, header)| == HeaderSize
    ensures UnpackHeader(PackAll(HeaderFormat, header)) == header
  {
    FormatSizes();
    UnpackOfPack(HeaderFormat, header);
  }

  /** A 28-byte header followed by a whole number of records decodes to that header
      unpacked and those records decoded. */
  lemma DecodeHeaderAndBody(head: seq<byte>, body: seq<byte>)
    requires |head| == HeaderSize && |body| % RecordSize == 0
    ensures DecodeCatalog(head + body) == Ok(Catalog(UnpackHeader(head), DecodeRecords(body)))
  {
    var file := head + body;
    assert file[..HeaderSize] == head && file[HeaderSize..] == body;
    DecodeCatalogOk(file);
  }

  /** Conversely, a well-formed file whose flag bytes are 0 or 1 is exactly the packed
      form of what it decodes to. */
  lemma CatalogReencode(file: seq<byte>)
    requires |file| >= HeaderSize && (|file| - HeaderSize) % RecordSize == 0
    requires forall j :: 16 <= j < 20 ==> file[j] <= 1
    ensures DecodeCatalog(file).Ok?
    ensures PackAll(HeaderFormat, DecodeCatalog(file).value.header)
          + PackRecords(DecodeCatalog(file).value.records) == file
  {
    FormatSizes();
    DecodeCatalogOk(file);
    HeaderCanonical(file[..HeaderSize]);
    PackOfUnpack(HeaderFormat, file[..HeaderSize]);
    PackOfDecodeRecords(file[HeaderSize..]);
    assert file == file[..HeaderSize] + file[HeaderSize..];
  }
}
