/** The command-line actions of main.c that drive the pipeline, and some
    add strings, worked through the model. */
module Scenarios {
  import opened Bytes
  import opened Format
  import opened Text
  import opened Store
  import opened Parse

  /** The bytes of an ASCII string literal. */
  function Ascii(s: string): (b: seq<uint8>)
    requires forall i :: 0 <= i < |s| ==> s[i] as int < 0x80
    ensures |b| == |s|
    ensures forall i :: 0 <= i < |s| ==> b[i] == s[i] as int
  {
    seq(|s|, i requires 0 <= i < |s| => s[i] as int)
  }

  // The lemmas below take their strings as parameters fixed by `requires`
  // rather than as literals in the `ensures`: with literal arguments the
  // verifier would unfold ParseSpec and strtok byte by byte.

  /** "John,123 Main,40" adds John at 123 Main with 40 hours. */
  lemma AddJohn(name: seq<uint8>, address: seq<uint8>, hours: seq<uint8>)
    requires name == Ascii("John") && address == Ascii("123 Main") && hours == Decimal(40)
    ensures ParseSpec(name + [COMMA] + address + [COMMA] + hours) ==
      Added(Employee(CopyField(name, NAME_LEN), CopyField(address, ADDRESS_LEN), 40))
  {
    HoursOfDecimal(40);
    ParseJoined(name, address, hours);
  }

  /** The add string of the usage text, "name=John,address=123 Main,hours=40",
      is split on commas only: the keys stay in the stored name and address,
      and atoi stops at the "h" of the third field, so the hours are 0. */
  lemma AddUsageExample(name: seq<uint8>, address: seq<uint8>, hours: seq<uint8>)
    requires name == Ascii("name=John") && address == Ascii("address=123 Main") && hours == Ascii("hours=40")
    ensures ParseSpec(name + [COMMA] + address + [COMMA] + hours) ==
      Added(Employee(CopyField(name, NAME_LEN), CopyField(address, ADDRESS_LEN), 0))
  {
    assert hours[0] == 104;
    AtoiOfNonNumeric(hours);
    assert Hours(hours) == 0;
    ParseJoined(name, address, hours);
  }

  /** Two fields are not enough: "John,123 Main" is rejected for the missing
      hours, with the name and address already in the slot. */
  lemma AddWithoutHours(name: seq<uint8>, address: seq<uint8>)
    requires name == Ascii("John") && address == Ascii("123 Main")
    ensures ParseSpec(name + [COMMA] + address) ==
      Rejected(MissingHours, Employee(CopyField(name, NAME_LEN), CopyField(address, ADDRESS_LEN), 0))
  {
    var s := name + [COMMA] + address;
    assert s[..4] == name && s[4..5] == [COMMA] && s[5..] == address;
    ParseTwoFields(s, 4, 5);
  }

  /** The -n action on a freshly created, empty file: create_db_header, then
      output_file with no records. On success the file holds exactly the new
      header, and it validates. */
  method NewFile() returns (f: DbFile, st: Status)
    ensures f.Valid()
    ensures st == Success ==> f.data == EncodeHeader(NewHeader()) && CheckHeader(f.data) == Ok(NewHeader())
    ensures st != Success ==> st == Failure(ShortWrite)
  {
    f := new DbFile([]);
    var db := new Database.Create();
    st := db.OutputFile(f);
    if st == Success {
      assert db.Header() == NewHeader();
      assert Image(NewHeader(), []) == EncodeHeader(NewHeader());
      OverwriteFromStart([], EncodeHeader(NewHeader()));
      assert EncodeHeader(NewHeader()) + [] == EncodeHeader(NewHeader());
      NewImageValidates([]);
    }
  }

  /** The -a action on an open file: validate the header, read the records
      after it, add one from `spec` and write everything back. On success
      the file validates and reloads to the records it held followed by the
      new one, with count and filesize advanced by one record. Every failure
      carries the step's own reason, and only a failed write leaves the file
      changed. */
  method AddToFile(f: DbFile, spec: seq<uint8>) returns (st: Status)
    requires f.Valid()
    requires CheckHeader(f.data).Ok? ==> CheckHeader(f.data).value.count < 0xFFFF
    modifies f
    ensures f.Valid()
    ensures CheckHeader(old(f.data)).Err? ==> st == Failure(CheckHeader(old(f.data)).error)
    ensures CheckHeader(old(f.data)).Ok? &&
            LoadEmployees(old(f.data), HEADER_SIZE, CheckHeader(old(f.data)).value.count as int).None? ==>
      st == Failure(ShortRecord)
    ensures CheckHeader(old(f.data)).Ok? &&
            LoadEmployees(old(f.data), HEADER_SIZE, CheckHeader(old(f.data)).value.count as int).Some? &&
            ParseSpec(spec).Rejected? ==>
      st == Failure(ParseSpec(spec).error) && f.data == old(f.data)
    ensures CheckHeader(old(f.data)).Ok? &&
            LoadEmployees(old(f.data), HEADER_SIZE, CheckHeader(old(f.data)).value.count as int).Some? &&
            ParseSpec(spec).Added? ==>
      st == Success || st == Failure(ShortWrite)
    ensures st != Success ==> f.data == old(f.data) || st == Failure(ShortWrite)
    ensures st == Failure(ShortWrite) ==>
      && CheckHeader(old(f.data)).Ok?
      && var h := CheckHeader(old(f.data)).value;
         var n := h.count as int + 1;
         && LoadEmployees(old(f.data), HEADER_SIZE, h.count as int).Some?
         && ParseSpec(spec).Added?
         && exists w ::
              && w <= Image(h.(count := n, filesize := FileSize(n)),
                            LoadEmployees(old(f.data), HEADER_SIZE, h.count as int).value + [ParseSpec(spec).record])
              && f.data == Overwrite(old(f.data), 0, w)
    ensures st == Success ==>
      var h := CheckHeader(old(f.data)).value;
      var n := h.count as int + 1;
      && ParseSpec(spec).Added?
      && LoadEmployees(old(f.data), HEADER_SIZE, h.count as int).Some?
      && CheckHeader(f.data) == Ok(h.(count := n, filesize := FileSize(n)))
      && LoadEmployees(f.data, HEADER_SIZE, n) ==
           Some(LoadEmployees(old(f.data), HEADER_SIZE, h.count as int).value + [ParseSpec(spec).record])
  {
    var r := Database.Validate(f);
    if r.Err? {
      return Failure(r.error);
    }
    var db := r.value;
    ghost var h := db.Header();
    assert f.pos == HEADER_SIZE;
    st := db.ReadEmployees(f);
    if st != Success {
      return st;
    }
    ghost var loaded := db.Records();
    st := db.AddEmployee(spec);
    if st != Success {
      return st;
    }
    ghost var before := f.data;
    st := db.OutputFile(f);
    if st == Success {
      assert db.Header() == h.(count := h.count + 1, filesize := FileSize(h.count as int + 1));
      PersistThenReload(before, db.Header(), db.Records());
    }
  }
}
