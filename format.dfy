/** The on-disk layout of the employee database: a 12-byte header (magic,
    version, count, filesize, all in network byte order) followed by `count`
    fixed-width employee records (name, address, hours). */
module Format {
  import opened Bytes

  /** Identifies a database file; the value of HEADER_MAGIC in common.h. */
  const HEADER_MAGIC: uint32 := 0x4c4c_4144
  /** The only format version that is written and accepted. */
  const CURRENT_VERSION: uint16 := 1
  /** Width of the name field, terminating zero included. */
  const NAME_LEN: nat := 256
  /** Width of the address field, terminating zero included. */
  const ADDRESS_LEN: nat := 256
  /** sizeof(struct dbheader_t): magic 4, version 2, count 2, filesize 4. */
  const HEADER_SIZE: nat := 12
  /** sizeof(struct employee_t): name, address, hours 4. */
  const RECORD_SIZE: nat := NAME_LEN + ADDRESS_LEN + 4

  /** The header fields in host order (struct dbheader_t). */
  datatype DbHeader = DbHeader(magic: uint32, version: uint16, count: uint16, filesize: uint32)

  /** One employee (struct employee_t): two zero-padded text fields and the hours. */
  datatype Employee = Employee(name: seq<uint8>, address: seq<uint8>, hours: uint32)

  /** Why an operation returned STATUS_ERROR; each stands for one diagnostic of the source. */
  datatype Error =
    | BadDescriptor    // fd < 0
    | ShortHeader      // fewer than HEADER_SIZE bytes could be read
    | BadMagic         // magic differs from HEADER_MAGIC
    | BadVersion       // version differs from 1
    | ShortRecord      // fewer than RECORD_SIZE bytes could be read for a record
    | NoRecords        // the employee array is NULL
    | MissingName      // the add spec has no first token
    | MissingAddress   // the add spec has no second token
    | MissingHours     // the add spec has no third token
    | ShortWrite       // write() wrote fewer bytes than asked

  datatype Result<T> = Ok(value: T) | Err(error: Error)

  /** STATUS_SUCCESS, or STATUS_ERROR with its reason. */
  datatype Status = Success | Failure(error: Error)

  /** A record has the fixed widths of struct employee_t. */
  predicate WellFormed(e: Employee) {
    |e.name| == NAME_LEN && |e.address| == ADDRESS_LEN
  }

  /** The all-zero record left by calloc or memset. */
  function Blank(): (e: Employee)
    ensures WellFormed(e)
  {
    Employee(Zeros(NAME_LEN), Zeros(ADDRESS_LEN), 0)
  }

  function EncodeHeader(h: DbHeader): (b: seq<uint8>)
    ensures |b| == HEADER_SIZE
  {
    Be32(h.magic) + Be16(h.version) + Be16(h.count) + Be32(h.filesize)
  }

  function DecodeHeader(b: seq<uint8>): (h: DbHeader)
    requires |b| == HEADER_SIZE
  {
    DbHeader(FromBe32(b[0..4]), FromBe16(b[4..6]), FromBe16(b[6..8]), FromBe32(b[8..12]))
  }

  /** The header read back from its encoding is the header written. */
  lemma HeaderRoundTrip(h: DbHeader)
    ensures DecodeHeader(EncodeHeader(h)) == h
  {
    var b := EncodeHeader(h);
    var front := Be32(h.magic) + Be16(h.version) + Be16(h.count);
    assert b == front + Be32(h.filesize);
    assert b[8..12] == Be32(h.filesize);
    assert b[0..8] == front;
    assert front[0..4] == Be32(h.magic) && front[4..6] == Be16(h.version) && front[6..8] == Be16(h.count);
    assert b[0..4] == Be32(h.magic) && b[4..6] == Be16(h.version) && b[6..8] == Be16(h.count);
    Be32RoundTrip(h.magic);
    Be16RoundTrip(h.version);
    Be16RoundTrip(h.count);
    Be32RoundTrip(h.filesize);
  }

  /** Text fields are copied verbatim; only hours changes byte order. */
  function EncodeEmployee(e: Employee): (b: seq<uint8>)
    requires WellFormed(e)
    ensures |b| == RECORD_SIZE
  {
    e.name + e.address + Be32(e.hours)
  }

  function DecodeEmployee(b: seq<uint8>): (e: Employee)
    requires |b| == RECORD_SIZE
    ensures WellFormed(e)
  {
    Employee(b[..NAME_LEN], b[NAME_LEN..NAME_LEN + ADDRESS_LEN], FromBe32(b[NAME_LEN + ADDRESS_LEN..]))
  }

  /** A record read back from its encoding is the record written. */
  lemma EmployeeRoundTrip(e: Employee)
    requires WellFormed(e)
    ensures DecodeEmployee(EncodeEmployee(e)) == e
  {
    var b := EncodeEmployee(e);
    assert b[..NAME_LEN] == e.name;
    assert b[NAME_LEN..NAME_LEN + ADDRESS_LEN] == e.address;
    assert b[NAME_LEN + ADDRESS_LEN..] == Be32(e.hours);
    Be32RoundTrip(e.hours);
  }

  predicate AllWellFormed(es: seq<Employee>) {
    forall i :: 0 <= i < |es| ==> WellFormed(es[i])
  }

  /** The records as they follow the header, one after another, no padding. */
  function EncodeEmployees(es: seq<Employee>): (b: seq<uint8>)
    requires AllWellFormed(es)
  {
    if es == [] then [] else EncodeEmployees(es[..|es| - 1]) + EncodeEmployee(es[|es| - 1])
  }

  /** Record `k` occupies bytes k * RECORD_SIZE up to (k + 1) * RECORD_SIZE. */
  lemma {:induction false} EncodeEmployeesLayout(es: seq<Employee>)
    requires AllWellFormed(es)
    ensures |EncodeEmployees(es)| == |es| * RECORD_SIZE
    ensures forall k :: 0 <= k < |es| ==>
      EncodeEmployees(es)[k * RECORD_SIZE..(k + 1) * RECORD_SIZE] == EncodeEmployee(es[k])
  {
    if es != [] {
      var init := es[..|es| - 1];
      EncodeEmployeesLayout(init);
      var b := EncodeEmployees(es);
      assert b == EncodeEmployees(init) + EncodeEmployee(es[|es| - 1]);
      forall k | 0 <= k < |es|
        ensures b[k * RECORD_SIZE..(k + 1) * RECORD_SIZE] == EncodeEmployee(es[k])
      {
        assert (k + 1) * RECORD_SIZE == k * RECORD_SIZE + RECORD_SIZE;
        if k < |es| - 1 {
          assert (k + 1) * RECORD_SIZE <= |init| * RECORD_SIZE;
          assert es[k] == init[k];
          assert b[k * RECORD_SIZE..(k + 1) * RECORD_SIZE]
              == EncodeEmployees(init)[k * RECORD_SIZE..(k + 1) * RECORD_SIZE];
        }
      }
    }
  }

  /** Encoding one more record appends its encoding. */
  lemma EncodeEmployeesSnoc(es: seq<Employee>, i: nat)
    requires AllWellFormed(es) && i < |es|
    ensures EncodeEmployees(es[..i + 1]) == EncodeEmployees(es[..i]) + EncodeEmployee(es[i])
  {
    assert es[..i + 1][..i] == es[..i];
  }

  /** The encoding of the first `j` records is a prefix of the encoding of all. */
  lemma {:induction false} EncodeEmployeesPrefix(es: seq<Employee>, j: nat)
    requires AllWellFormed(es) && j <= |es|
    ensures EncodeEmployees(es[..j]) <= EncodeEmployees(es)
    decreases |es| - j
  {
    if j == |es| {
      assert es[..j] == es;
    } else {
      EncodeEmployeesPrefix(es, j + 1);
      EncodeEmployeesSnoc(es, j);
    }
  }

  /** A prefix stays a prefix behind a common head, and cutting its last
      part short keeps it one. */
  lemma PrefixOfParts(head: seq<uint8>, front: seq<uint8>, enc: seq<uint8>, all: seq<uint8>, n: nat)
    requires front + enc <= all && n <= |enc|
    ensures head + front + enc[..n] <= head + all
  {
    var k := |head| + |front| + n;
    assert all[..|front| + |enc|] == front + enc;
    assert (head + all)[..|head| + |front| + |enc|] == head + (front + enc);
    assert (head + (front + enc))[..k] == head + front + enc[..n];
  }

  /** After any header, the first `i` records followed by part of record `i`
      are a prefix of the header followed by all the records. */
  lemma PartialRecordPrefix(head: seq<uint8>, es: seq<Employee>, i: nat, n: nat)
    requires AllWellFormed(es) && i < |es| && n <= RECORD_SIZE
    ensures head + EncodeEmployees(es[..i]) + EncodeEmployee(es[i])[..n] <= head + EncodeEmployees(es)
  {
    EncodeEmployeesSnoc(es, i);
    EncodeEmployeesPrefix(es, i + 1);
    PrefixOfParts(head, EncodeEmployees(es[..i]), EncodeEmployee(es[i]), EncodeEmployees(es), n);
  }

  /** Everything output_file writes from offset 0: the header, then the records. */
  function Image(h: DbHeader, es: seq<Employee>): seq<uint8>
    requires AllWellFormed(es)
  {
    EncodeHeader(h) + EncodeEmployees(es)
  }

  /** The size recorded in the header by output_file. */
  function FileSize(count: uint16): uint32 {
    HEADER_SIZE + count as int * RECORD_SIZE
  }

  /** The bytes written are exactly as many as the recomputed filesize says. */
  lemma ImageLength(h: DbHeader, es: seq<Employee>)
    requires AllWellFormed(es) && |es| == h.count as int
    ensures |Image(h, es)| == FileSize(h.count)
  {
    EncodeEmployeesLayout(es);
  }

  /** validate_db_header on a file holding `data`: a short read, then the
      magic, then the version; count and filesize are not checked. */
  function CheckHeader(data: seq<uint8>): (r: Result<DbHeader>) {
    if |data| < HEADER_SIZE then Err(ShortHeader)
    else
      var h := DecodeHeader(data[..HEADER_SIZE]);
      if h.magic != HEADER_MAGIC then Err(BadMagic)
      else if h.version != CURRENT_VERSION then Err(BadVersion)
      else Ok(h)
  }

  /** The validator fails on exactly three conditions, the magic before the
      version, and otherwise returns the decoded header unchanged. */
  lemma CheckHeaderVerdicts(data: seq<uint8>)
    ensures CheckHeader(data) == Err(ShortHeader) <==> |data| < HEADER_SIZE
    ensures CheckHeader(data) == Err(BadMagic) <==>
      |data| >= HEADER_SIZE && FromBe32(data[0..4]) != HEADER_MAGIC
    ensures CheckHeader(data) == Err(BadVersion) <==>
      |data| >= HEADER_SIZE && FromBe32(data[0..4]) == HEADER_MAGIC && FromBe16(data[4..6]) != CURRENT_VERSION
    ensures CheckHeader(data).Ok? <==>
      |data| >= HEADER_SIZE && FromBe32(data[0..4]) == HEADER_MAGIC && FromBe16(data[4..6]) == CURRENT_VERSION
    ensures CheckHeader(data).Ok? ==> CheckHeader(data).value == DecodeHeader(data[..HEADER_SIZE])
    ensures CheckHeader(data).Ok? ==>
      CheckHeader(data).value.count == FromBe16(data[6..8]) && CheckHeader(data).value.filesize == FromBe32(data[8..12])
  {
    if |data| >= HEADER_SIZE {
      var b := data[..HEADER_SIZE];
      assert b[0..4] == data[0..4] && b[4..6] == data[4..6];
      assert b[6..8] == data[6..8] && b[8..12] == data[8..12];
    }
  }

  /** Two files whose first six bytes agree get the same verdict, whatever
      their count, filesize or length beyond the header. */
  lemma CheckHeaderIgnoresCountAndSize(a: seq<uint8>, b: seq<uint8>)
    requires |a| >= HEADER_SIZE && |b| >= HEADER_SIZE && a[..6] == b[..6]
    ensures CheckHeader(a).Ok? == CheckHeader(b).Ok?
    ensures CheckHeader(a).Err? ==> CheckHeader(a) == CheckHeader(b)
  {
    CheckHeaderVerdicts(a);
    CheckHeaderVerdicts(b);
    assert a[0..4] == a[..6][0..4] && a[4..6] == a[..6][4..6];
    assert b[0..4] == b[..6][0..4] && b[4..6] == b[..6][4..6];
  }

  /** read_employees from offset `at`: `count` records one after another, or
      a failure if any of them is short. */
  function LoadEmployees(data: seq<uint8>, at: nat, count: nat): (r: Option<seq<Employee>>)
    ensures r.Some? ==> |r.value| == count && AllWellFormed(r.value)
  {
    if at + count * RECORD_SIZE <= |data| then
      Some(seq(count, k requires 0 <= k < count =>
        DecodeEmployee(data[at + k * RECORD_SIZE..at + (k + 1) * RECORD_SIZE])))
    else None
  }

  /** Reading one more record extends the records read so far by it. */
  lemma LoadEmployeesStep(data: seq<uint8>, at: nat, i: nat)
    requires at + (i + 1) * RECORD_SIZE <= |data|
    ensures LoadEmployees(data, at, i + 1) ==
      Some(LoadEmployees(data, at, i).value + [DecodeEmployee(data[at + i * RECORD_SIZE..at + (i + 1) * RECORD_SIZE])])
  {
    assert at + i * RECORD_SIZE <= at + (i + 1) * RECORD_SIZE;
    var longer, shorter := LoadEmployees(data, at, i + 1).value, LoadEmployees(data, at, i).value;
    var last := DecodeEmployee(data[at + i * RECORD_SIZE..at + (i + 1) * RECORD_SIZE]);
    assert |longer| == |shorter + [last]|;
    forall k | 0 <= k < i + 1
      ensures longer[k] == (shorter + [last])[k]
    {
      if k < i {
        assert longer[k] == shorter[k];
      }
    }
    assert longer == shorter + [last];
  }

  /** Nothing to read is read at once. */
  lemma LoadNothing(data: seq<uint8>, at: nat)
    requires at <= |data|
    ensures LoadEmployees(data, at, 0) == Some([])
  {
    assert |LoadEmployees(data, at, 0).value| == 0;
  }

  /** A record cut short by the end of the file fails every longer load. */
  lemma LoadEmployeesShort(data: seq<uint8>, at: nat, i: nat, count: nat)
    requires i < count && |data| < at + (i + 1) * RECORD_SIZE
    ensures |data| < at + count * RECORD_SIZE
    ensures LoadEmployees(data, at, count).None?
  {
    assert (i + 1) * RECORD_SIZE <= count * RECORD_SIZE;
  }

  /** A new database: HEADER_MAGIC, version 1, no records, filesize the header's own size. */
  function NewHeader(): DbHeader {
    DbHeader(HEADER_MAGIC, CURRENT_VERSION, 0, HEADER_SIZE)
  }

  /** What output_file writes validates and loads back to the same header and
      records, whatever follows it in the file. */
  lemma ImageRoundTrip(h: DbHeader, es: seq<Employee>, rest: seq<uint8>)
    requires AllWellFormed(es) && |es| == h.count as int
    requires h.magic == HEADER_MAGIC && h.version == CURRENT_VERSION
    ensures CheckHeader(Image(h, es) + rest) == Ok(h)
    ensures LoadEmployees(Image(h, es) + rest, HEADER_SIZE, h.count as int) == Some(es)
  {
    var head := EncodeHeader(h);
    var data := Image(h, es) + rest;
    assert data == head + (EncodeEmployees(es) + rest);
    assert data[..HEADER_SIZE] == head;
    HeaderRoundTrip(h);
    LoadAfterHeader(head, es, rest);
  }

  /** The records that follow any 12 header bytes load back unchanged. */
  lemma {:induction false} LoadAfterHeader(head: seq<uint8>, es: seq<Employee>, rest: seq<uint8>)
    requires |head| == HEADER_SIZE && AllWellFormed(es)
    ensures LoadEmployees(head + (EncodeEmployees(es) + rest), HEADER_SIZE, |es|) == Some(es)
  {
    var data := head + (EncodeEmployees(es) + rest);
    EncodeEmployeesLayout(es);
    var loaded := LoadEmployees(data, HEADER_SIZE, |es|);
    assert loaded.Some?;
    forall k | 0 <= k < |es|
      ensures loaded.value[k] == es[k]
    {
      RecordAfterHeader(head, es, rest, k);
    }
    assert loaded.value == es;
  }

  /** Record `k` of the file is the decoding of record `k` as written. */
  lemma RecordAfterHeader(head: seq<uint8>, es: seq<Employee>, rest: seq<uint8>, k: nat)
    requires |head| == HEADER_SIZE && AllWellFormed(es) && k < |es|
    requires |EncodeEmployees(es)| == |es| * RECORD_SIZE
    requires EncodeEmployees(es)[k * RECORD_SIZE..(k + 1) * RECORD_SIZE] == EncodeEmployee(es[k])
    ensures HEADER_SIZE + (k + 1) * RECORD_SIZE <= |head + (EncodeEmployees(es) + rest)|
    ensures DecodeEmployee((head + (EncodeEmployees(es) + rest))[HEADER_SIZE + k * RECORD_SIZE..HEADER_SIZE + (k + 1) * RECORD_SIZE]) == es[k]
  {
    var body := EncodeEmployees(es);
    var lo := k * RECORD_SIZE;
    SliceAfterPrefix(head, body + rest, lo, lo + RECORD_SIZE);
    assert (body + rest)[lo..lo + RECORD_SIZE] == body[lo..lo + RECORD_SIZE];
    EmployeeRoundTrip(es[k]);
  }

  lemma SliceAfterPrefix(a: seq<uint8>, b: seq<uint8>, i: nat, j: nat)
    requires i <= j <= |b|
    ensures (a + b)[|a| + i..|a| + j] == b[i..j]
  {
  }

  /** A freshly created database file validates, with count 0 and no records. */
  lemma NewImageValidates(rest: seq<uint8>)
    ensures CheckHeader(Image(NewHeader(), []) + rest) == Ok(NewHeader())
    ensures CheckHeader(Image(NewHeader(), []) + rest).value.count == 0
    ensures LoadEmployees(Image(NewHeader(), []) + rest, HEADER_SIZE, 0) == Some([])
    ensures |Image(NewHeader(), [])| == NewHeader().filesize as int
  {
    ImageRoundTrip(NewHeader(), [], rest);
    ImageLength(NewHeader(), []);
  }
}
