/** The load, mutate and persist pipeline of the employee database: one
    header and its records held in memory, filled from and written back to a
    DbFile. */
module Parse {
  import opened Bytes
  import opened Format
  import opened Text
  import opened Store

  /** What add_employee leaves in the spare slot: a complete record, or the
      reason it stopped and the partly filled slot. */
  datatype AddOutcome = Added(record: Employee) | Rejected(error: Error, slot: Employee)

  /** (unsigned int)atoi(token) */
  function Hours(token: seq<uint8>): (h: uint32) {
    ToUnsigned(Atoi(token))
  }

  /** Hours written as a decimal number below 2^32 are read as that number. */
  lemma HoursOfDecimal(n: nat)
    requires n < 0x1_0000_0000
    ensures Hours(Decimal(n)) == n
  {
    assert Decimal(n) + [] == Decimal(n);
    AtoiOfDecimal(n, []);
  }

  /** add_employee's parse of "name,address,hours" into a zeroed slot: three
      strtok calls on ",", each text field copied with strncpy. Every slot it
      writes has the record's fixed widths. */
  function ParseSpec(spec: seq<uint8>): (r: AddOutcome)
    ensures r.Added? ==> WellFormed(r.record)
    ensures r.Rejected? ==> WellFormed(r.slot)
  {
    match StrTok(spec, 0)
    case None => Rejected(MissingName, Blank())
    case Some((name, next)) =>
      var withName := Blank().(name := CopyField(name, NAME_LEN));
      match StrTok(spec, next)
      case None => Rejected(MissingAddress, withName)
      case Some((address, next')) =>
        var withAddress := withName.(address := CopyField(address, ADDRESS_LEN));
        match StrTok(spec, next')
        case None => Rejected(MissingHours, withAddress)
        case Some((hours, _)) => Added(withAddress.(hours := Hours(hours)))
  }

  /** The parse in terms of the non-empty comma-separated fields: it succeeds
      exactly when there are at least three, takes the first three, ignores
      the rest, and names the first missing field otherwise. */
  lemma ParseSpecByTokens(spec: seq<uint8>)
    ensures ParseSpec(spec).Added? <==> |Tokens(spec)| >= 3
    ensures |Tokens(spec)| >= 3 ==>
      var ts := Tokens(spec);
      ParseSpec(spec).record == Employee(CopyField(ts[0], NAME_LEN), CopyField(ts[1], ADDRESS_LEN), Hours(ts[2]))
    ensures |Tokens(spec)| == 0 ==> ParseSpec(spec) == Rejected(MissingName, Blank())
    ensures |Tokens(spec)| == 1 ==>
      var ts := Tokens(spec);
      ParseSpec(spec) == Rejected(MissingAddress, Blank().(name := CopyField(ts[0], NAME_LEN)))
    ensures |Tokens(spec)| == 2 ==>
      var ts := Tokens(spec);
      ParseSpec(spec) == Rejected(MissingHours, Employee(CopyField(ts[0], NAME_LEN), CopyField(ts[1], ADDRESS_LEN), 0))
  {
    ThreeCalls(spec);
  }

  /** A spec laid out as three comma-free fields separated by runs of
      commas, [0, e1) [e1, b2) [b2, e2) [e2, b3) [b3, end), parses to those
      three fields. */
  lemma ParseThreeFields(s: seq<uint8>, e1: nat, b2: nat, e2: nat, b3: nat)
    requires 0 < e1 < b2 < e2 < b3 < |s|
    requires NoComma(s[..e1]) && AllCommas(s[e1..b2]) && NoComma(s[b2..e2])
    requires AllCommas(s[e2..b3]) && NoComma(s[b3..])
    ensures ParseSpec(s) ==
      Added(Employee(CopyField(s[..e1], NAME_LEN), CopyField(s[b2..e2], ADDRESS_LEN), Hours(s[b3..])))
  {
    assert s[e1] == s[e1..b2][0];
    assert s[0..0] == [] && s[0..e1] == s[..e1] && s[b3..|s|] == s[b3..];
    StrTokFinds(s, 0, 0, e1);
    StrTokAfterSeparator(s, e1, b2, e2);
    StrTokAfterSeparator(s, e2, b3, |s|);
    ParseSpecOfCalls(s, s[..e1], e1 + 1, s[b2..e2], e2 + 1, s[b3..], |s|);
  }

  /** strtok resumed just past the comma at `e`, facing more commas up to `b`
      and a comma-free run up to `f`, returns that run. */
  lemma StrTokAfterSeparator(s: seq<uint8>, e: nat, b: nat, f: nat)
    requires e < b < f <= |s|
    requires AllCommas(s[e..b]) && NoComma(s[b..f]) && (f < |s| ==> s[f] == COMMA)
    ensures s[e] == COMMA
    ensures StrTok(s, e + 1) == Some((s[b..f], if f < |s| then f + 1 else f))
  {
    assert s[e] == s[e..b][0];
    assert s[e + 1..b] == s[e..b][1..];
    StrTokFinds(s, e + 1, b, f);
  }

  /** "name,address,hours" with three non-empty comma-free fields adds that
      employee. */
  lemma ParseJoined(name: seq<uint8>, address: seq<uint8>, hours: seq<uint8>)
    requires name != [] && address != [] && hours != []
    requires NoComma(name) && NoComma(address) && NoComma(hours)
    ensures ParseSpec(name + [COMMA] + address + [COMMA] + hours) ==
      Added(Employee(CopyField(name, NAME_LEN), CopyField(address, ADDRESS_LEN), Hours(hours)))
  {
    var first := name + [COMMA] + address;
    var s := first + [COMMA] + hours;
    var e1, e2 := |name|, |first|;
    assert s[..e2] == first && s[e2..e2 + 1] == [COMMA] && s[e2 + 1..] == hours;
    assert s[..e1] == first[..e1] == name;
    assert s[e1..e1 + 1] == first[e1..e1 + 1] == [COMMA];
    assert s[e1 + 1..e2] == first[e1 + 1..] == address;
    ParseThreeFields(s, e1, e1 + 1, e2, e2 + 1);
  }

  /** ParseSpec given the results of its three strtok calls. */
  lemma ParseSpecOfCalls(s: seq<uint8>, t1: seq<uint8>, n1: nat, t2: seq<uint8>, n2: nat,
                         t3: seq<uint8>, n3: nat)
    requires n1 <= |s| && n2 <= |s|
    requires StrTok(s, 0) == Some((t1, n1)) && StrTok(s, n1) == Some((t2, n2)) && StrTok(s, n2) == Some((t3, n3))
    ensures ParseSpec(s) == Added(Employee(CopyField(t1, NAME_LEN), CopyField(t2, ADDRESS_LEN), Hours(t3)))
  {
  }

  /** A spec with only a name field and an address field, [0, e1) and
      [b2, end), is rejected for the missing hours, with both already stored
      in the slot. */
  lemma ParseTwoFields(s: seq<uint8>, e1: nat, b2: nat)
    requires 0 < e1 < b2 < |s|
    requires NoComma(s[..e1]) && AllCommas(s[e1..b2]) && NoComma(s[b2..])
    ensures ParseSpec(s) ==
      Rejected(MissingHours, Employee(CopyField(s[..e1], NAME_LEN), CopyField(s[b2..], ADDRESS_LEN), 0))
  {
    assert s[e1] == s[e1..b2][0];
    assert s[0..0] == [] && s[0..e1] == s[..e1] && s[b2..|s|] == s[b2..];
    assert s[|s|..] == [];
    StrTokFinds(s, 0, 0, e1);
    StrTokAfterSeparator(s, e1, b2, |s|);
    StrTokExhausted(s, |s|);
  }

  /** One row of list_employees: the text fields as printf("%s") shows them. */
  datatype Row = Row(name: seq<uint8>, address: seq<uint8>, hours: uint32)

  function RowOf(e: Employee): Row {
    Row(CStr(e.name), CStr(e.address), e.hours)
  }

  /** An added employee lists with the name and address as given, each cut
      to its field width less one, and the hours as atoi read them. */
  lemma AddedRow(spec: seq<uint8>)
    requires NoNul(spec) && ParseSpec(spec).Added?
    ensures var ts := Tokens(spec);
      |ts| >= 3 &&
      RowOf(ParseSpec(spec).record) ==
        Row(ts[0][..Min(|ts[0]|, NAME_LEN - 1)], ts[1][..Min(|ts[1]|, ADDRESS_LEN - 1)], Hours(ts[2]))
  {
    ThreeCalls(spec);
    ParseSpecByTokens(spec);
    var p1 := StrTok(spec, 0).value;
    StrTokKeepsNoNul(spec, 0);
    StrTokKeepsNoNul(spec, p1.1);
    CopyFieldTruncates(p1.0, NAME_LEN);
    CopyFieldTruncates(StrTok(spec, p1.1).value.0, ADDRESS_LEN);
  }

  /** Saving, then validating and loading the saved file gives back the same
      header and records, whatever the file held before. */
  lemma PersistThenReload(old_: seq<uint8>, h: DbHeader, es: seq<Employee>)
    requires AllWellFormed(es) && |es| == h.count as int
    requires h.magic == HEADER_MAGIC && h.version == CURRENT_VERSION
    ensures CheckHeader(Overwrite(old_, 0, Image(h, es))) == Ok(h)
    ensures LoadEmployees(Overwrite(old_, 0, Image(h, es)), HEADER_SIZE, h.count as int) == Some(es)
  {
    var img := Image(h, es);
    OverwriteFromStart(old_, img);
    ImageRoundTrip(h, es, if |img| < |old_| then old_[|img|..] else []);
  }

  /** output_file's loop: writing record `i` after the header and records
      before it leaves the file as one write of the header and records up to `i`. */
  lemma WriteNextRecord(data: seq<uint8>, head: seq<uint8>, es: seq<Employee>, i: nat)
    requires AllWellFormed(es) && i < |es|
    ensures head + EncodeEmployees(es[..i + 1]) == head + EncodeEmployees(es[..i]) + EncodeEmployee(es[i])
    ensures
      var done := head + EncodeEmployees(es[..i]);
      Overwrite(Overwrite(data, 0, done), |done|, EncodeEmployee(es[i]))
        == Overwrite(data, 0, head + EncodeEmployees(es[..i + 1]))
  {
    var done, next := head + EncodeEmployees(es[..i]), EncodeEmployee(es[i]);
    EncodeEmployeesSnoc(es, i);
    assert head + EncodeEmployees(es[..i + 1]) == done + next;
    WritesCompose(data, 0, done, next);
  }

  /** A short write of record `i` (only its first `n` bytes) leaves the file as
      one write, from offset 0, of a prefix of the header and all records. */
  lemma ShortWriteAt(data: seq<uint8>, head: seq<uint8>, es: seq<Employee>, i: nat, n: nat)
    requires AllWellFormed(es) && i < |es| && n <= RECORD_SIZE
    ensures
      var done, part := head + EncodeEmployees(es[..i]), EncodeEmployee(es[i])[..n];
      && done + part <= head + EncodeEmployees(es)
      && Overwrite(Overwrite(data, 0, done), |done|, part) == Overwrite(data, 0, done + part)
  {
    var done, part := head + EncodeEmployees(es[..i]), EncodeEmployee(es[i])[..n];
    PartialRecordPrefix(head, es, i, n);
    WritesCompose(data, 0, done, part);
  }

  /** The database of one invocation: the header (struct dbheader_t, updated
      in place) and the heap array of employees (NULL until loaded). */
  class Database {
    var magic: uint32
    var version: uint16
    var count: uint16
    var filesize: uint32
    var employees: array?<Employee>

    /** The array, once loaded, holds at least `count` records, every slot
        of the fixed widths. */
    ghost predicate Valid()
      reads this, employees
    {
      employees != null ==>
        && count as int <= employees.Length
        && forall i :: 0 <= i < employees.Length ==> WellFormed(employees[i])
    }

    function Header(): DbHeader
      reads this
    {
      DbHeader(magic, version, count, filesize)
    }

    /** The records that count says are in use; none without an array. */
    ghost function Records(): (es: seq<Employee>)
      reads this, employees
      requires Valid()
      ensures AllWellFormed(es)
    {
      if employees == null then [] else employees[..count]
    }

    /** A header as calloc leaves it, before anything is read into it. */
    constructor Zeroed()
      ensures Valid() && Header() == DbHeader(0, 0, 0, 0) && employees == null
    {
      magic, version, count, filesize := 0, 0, 0, 0;
      employees := null;
    }

    /** create_db_header: a new database with no records. */
    constructor Create()
      ensures Valid() && Header() == NewHeader() && employees == null
    {
      magic := HEADER_MAGIC;
      version := CURRENT_VERSION;
      count := 0;
      filesize := HEADER_SIZE;
      employees := null;
    }

    /** validate_db_header: read the header from offset 0, convert it to host
        order in place, then reject a short read, a wrong magic and a
        version other than 1, in that order. */
    static method Validate(f: DbFile?) returns (r: Result<Database>)
      requires f != null ==> f.Valid()
      modifies f
      ensures f == null ==> r == Err(BadDescriptor)
      ensures f != null ==> f.Valid() && f.data == old(f.data) && f.pos == Min(HEADER_SIZE, |f.data|)
      ensures f != null ==> (r.Ok? <==> CheckHeader(f.data).Ok?)
      ensures f != null && r.Err? ==> r.error == CheckHeader(f.data).error
      ensures f != null && r.Ok? ==>
        fresh(r.value) && r.value.Valid() && r.value.employees == null &&
        r.value.Header() == CheckHeader(f.data).value
    {
      if f == null {
        return Err(BadDescriptor);
      }
      var db := new Database.Zeroed();
      f.Rewind();
      var raw := f.Read(HEADER_SIZE);
      if |raw| != HEADER_SIZE {
        return Err(ShortHeader);
      }
      assert raw == f.data[..HEADER_SIZE];
      db.magic := FromBe32(raw[0..4]);
      db.filesize := FromBe32(raw[8..12]);
      db.count := FromBe16(raw[6..8]);
      db.version := FromBe16(raw[4..6]);
      if db.magic != HEADER_MAGIC {
        return Err(BadMagic);
      }
      if db.version != CURRENT_VERSION {
        return Err(BadVersion);
      }
      return Ok(db);
    }

    /** read_employees: allocate count + 1 zeroed slots and read `count`
        records from the file's offset into the first of them, converting
        hours to host order; any short record fails the whole load. */
    method ReadEmployees(f: DbFile?) returns (st: Status)
      requires Valid() && (f != null ==> f.Valid())
      modifies this`employees, f
      ensures Valid() && Header() == old(Header())
      ensures f == null ==> st == Failure(BadDescriptor) && employees == old(employees)
      ensures f != null ==> f.Valid() && f.data == old(f.data)
      ensures f != null ==> f.pos == Min(old(f.pos) + count as int * RECORD_SIZE, |f.data|)
      ensures f != null && LoadEmployees(f.data, old(f.pos), count as int).None? ==>
        st == Failure(ShortRecord) && employees == old(employees)
      ensures f != null && LoadEmployees(f.data, old(f.pos), count as int).Some? ==>
        && st == Success
        && fresh(employees)
        && employees.Length == count as int + 1
        && employees[..count] == LoadEmployees(f.data, old(f.pos), count as int).value
        && employees[count] == Blank()
    {
      if f == null {
        return Failure(BadDescriptor);
      }
      var slots := new Employee[count as int + 1](_ => Blank());
      var ok := ReadRecords(f, slots);
      if !ok {
        return Failure(ShortRecord);
      }
      employees := slots;
      return Success;
    }

    /** read_employees' loop: `count` records read one after another from the
        file's offset into the zeroed slots, stopping at the first short read. */
    method ReadRecords(f: DbFile, slots: array<Employee>) returns (ok: bool)
      requires f.Valid() && slots.Length == count as int + 1
      requires forall k :: 0 <= k < slots.Length ==> slots[k] == Blank()
      modifies f, slots
      ensures f.Valid() && f.data == old(f.data)
      ensures f.pos == Min(old(f.pos) + count as int * RECORD_SIZE, |f.data|)
      ensures ok <==> LoadEmployees(f.data, old(f.pos), count as int).Some?
      ensures ok ==> slots[..count] == LoadEmployees(f.data, old(f.pos), count as int).value
      ensures slots[count] == Blank()
      ensures forall k :: 0 <= k < slots.Length ==> WellFormed(slots[k])
    {
      ghost var start := f.pos;
      var i: nat := 0;
      LoadNothing(f.data, start);
      assert slots[..0] == [];
      while i < count as int
        invariant i <= count as int
        invariant f.Valid() && f.data == old(f.data)
        invariant f.pos == start + i * RECORD_SIZE
        invariant LoadEmployees(f.data, start, i) == Some(slots[..i])
        invariant forall k :: i <= k < slots.Length ==> slots[k] == Blank()
        invariant forall k :: 0 <= k < slots.Length ==> WellFormed(slots[k])
      {
        var raw := f.Read(RECORD_SIZE);
        if |raw| != RECORD_SIZE {
          LoadEmployeesShort(f.data, start, i, count as int);
          return false;
        }
        LoadEmployeesStep(f.data, start, i);
        ghost var done := slots[..i];
        slots[i] := DecodeEmployee(raw);
        assert slots[..i + 1] == done + [slots[i]];
        i := i + 1;
      }
      return true;
    }

    /** list_employees: the rows printed, one per record in use, in storage
        order; nothing to list without an array. */
    method List() returns (rows: Option<seq<Row>>)
      requires Valid()
      ensures employees == null <==> rows.None?
      ensures rows.Some? ==> |rows.value| == count as int
      ensures rows.Some? ==> forall i :: 0 <= i < count as int ==> rows.value[i] == RowOf(employees[i])
    {
      if employees == null {
        return None;
      }
      var acc: seq<Row> := [];
      var i: nat := 0;
      while i < count as int
        invariant i <= count as int
        invariant |acc| == i
        invariant forall k :: 0 <= k < i ==> acc[k] == RowOf(employees[k])
      {
        acc := acc + [RowOf(employees[i])];
        i := i + 1;
      }
      return Some(acc);
    }

    /** add_employee: zero the spare slot at index count, fill it from the
        spec field by field, and on success bump count. A missing field
        leaves count alone, and the slot as far as it was filled. */
    method AddEmployee(spec: seq<uint8>) returns (st: Status)
      requires Valid()
      requires employees != null ==> count as int < employees.Length
      requires count < 0xFFFF
      modifies this`count, employees
      ensures Valid() && employees == old(employees)
      ensures magic == old(magic) && version == old(version) && filesize == old(filesize)
      ensures employees == null ==> st == Failure(NoRecords) && count == old(count)
      ensures employees != null ==>
        forall k :: 0 <= k < employees.Length && k != old(count) as int ==> employees[k] == old(employees[k])
      ensures employees != null && ParseSpec(spec).Added? ==>
        && st == Success
        && count as int == old(count) as int + 1
        && employees[old(count)] == ParseSpec(spec).record
        && Records() == old(Records()) + [ParseSpec(spec).record]
      ensures employees != null && ParseSpec(spec).Rejected? ==>
        && st == Failure(ParseSpec(spec).error)
        && count == old(count)
        && employees[count] == ParseSpec(spec).slot
        && Records() == old(Records())
    {
      if employees == null {
        return Failure(NoRecords);
      }
      var at := count;
      employees[at] := Blank();
      var name := StrTok(spec, 0);
      if name.None? {
        return Failure(MissingName);
      }
      employees[at] := employees[at].(name := CopyField(name.value.0, NAME_LEN));
      var address := StrTok(spec, name.value.1);
      if address.None? {
        return Failure(MissingAddress);
      }
      employees[at] := employees[at].(address := CopyField(address.value.0, ADDRESS_LEN));
      var hours := StrTok(spec, address.value.1);
      if hours.None? {
        return Failure(MissingHours);
      }
      employees[at] := employees[at].(hours := Hours(hours.value.0));
      count := count + 1;
      return Success;
    }

    /** output_file: recompute filesize, then from offset 0 write the header
        in network order followed by the `count` records (none without an
        array), failing on the first short write. */
    method OutputFile(f: DbFile?) returns (st: Status)
      requires Valid() && (f != null ==> f.Valid())
      modifies this`filesize, f
      ensures Valid()
      ensures magic == old(magic) && version == old(version) && count == old(count) && employees == old(employees)
      ensures f == null ==> st == Failure(BadDescriptor) && filesize == old(filesize)
      ensures f != null ==> f.Valid() && filesize == FileSize(count)
      ensures f != null && st == Success ==>
        f.data == Overwrite(old(f.data), 0, Image(Header(), Records())) &&
        f.pos == |Image(Header(), Records())|
      ensures f != null && st != Success ==>
        && st == Failure(ShortWrite)
        && exists w :: w <= Image(Header(), Records()) && f.data == Overwrite(old(f.data), 0, w) && f.pos == |w|
    {
      if f == null {
        return Failure(BadDescriptor);
      }
      filesize := FileSize(count);
      f.Rewind();
      var head := EncodeHeader(Header());
      ghost var before := old(f.data);
      var written := f.Write(head);
      if written != |head| {
        assert head[..written] <= Image(Header(), Records());
        return Failure(ShortWrite);
      }
      assert head[..written] == head;
      if employees != null {
        st := WriteRecords(f, before, head);
        return st;
      }
      assert Records() == [];
      assert head + EncodeEmployees([]) == head;
      return Success;
    }

    /** output_file's loop: after the header at the start of the file, each
        record in turn with hours in network order; the first short write
        stops it. */
    method WriteRecords(f: DbFile, ghost before: seq<uint8>, ghost head: seq<uint8>) returns (st: Status)
      requires Valid() && employees != null && f.Valid()
      requires f.data == Overwrite(before, 0, head) && f.pos == |head|
      modifies f
      ensures f.Valid()
      ensures st == Success ==>
        f.data == Overwrite(before, 0, head + EncodeEmployees(Records())) &&
        f.pos == |head + EncodeEmployees(Records())|
      ensures st != Success ==>
        && st == Failure(ShortWrite)
        && exists w :: w <= head + EncodeEmployees(Records()) && f.data == Overwrite(before, 0, w) && f.pos == |w|
    {
      ghost var es := Records();
      assert es[..0] == [] && head + EncodeEmployees([]) == head;
      var i: nat := 0;
      while i < count as int
        invariant i <= count as int == |es|
        invariant f.Valid()
        invariant f.data == Overwrite(before, 0, head + EncodeEmployees(es[..i]))
        invariant f.pos == |head + EncodeEmployees(es[..i])|
      {
        var ok := WriteRecord(f, before, head, es, i);
        if !ok {
          return Failure(ShortWrite);
        }
        i := i + 1;
      }
      assert es[..i] == es;
      return Success;
    }

    /** One pass of output_file's loop: write record `i` with its hours in
        network order after the header and the records before it. */
    method WriteRecord(f: DbFile, ghost before: seq<uint8>, ghost head: seq<uint8>, ghost es: seq<Employee>, i: nat)
      returns (ok: bool)
      requires Valid() && employees != null && f.Valid()
      requires es == Records() && i < |es|
      requires f.data == Overwrite(before, 0, head + EncodeEmployees(es[..i])) && f.pos == |head + EncodeEmployees(es[..i])|
      modifies f
      ensures f.Valid()
      ensures ok ==>
        f.data == Overwrite(before, 0, head + EncodeEmployees(es[..i + 1])) &&
        f.pos == |head + EncodeEmployees(es[..i + 1])|
      ensures !ok ==> exists w :: w <= head + EncodeEmployees(es) && f.data == Overwrite(before, 0, w) && f.pos == |w|
    {
      var rec := EncodeEmployee(employees[i]);
      assert rec == EncodeEmployee(es[i]);
      var written := f.Write(rec);
      ok := written == |rec|;
      if ok {
        assert rec[..written] == rec;
        WriteNextRecord(before, head, es, i);
      } else {
        ShortWriteAt(before, head, es, i, written);
        ghost var w := head + EncodeEmployees(es[..i]) + rec[..written];
        assert f.data == Overwrite(before, 0, w) && f.pos == |w|;
      }
    }
  }
}
