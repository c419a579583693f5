/** The decision logic of the three JSON endpoints (app.py,
    `get_zonal_manager`, `get_issue_table`, `get_serial_details`) and the
    warranty status they report. The ERP replies arrive as parameters (a
    status code and the rows of `data`); today's date and the date parser
    are parameters too. */
module Handlers {
  import opened Wrappers
  import opened Tables

  // ---------------------------------------------------------------------
  // GET /get_zonal_manager (app.py:141-151)
  // ---------------------------------------------------------------------

  /** The answer of the zonal-manager lookup. `Manager(None)` is a JSON
      reply carrying a null (pandas' NaN) as the manager. */
  datatype ZonalReply =
    | MissingInput                    // 400, "Customer not provided or data not loaded"
    | Manager(value: Option<string>)  // 200, {"zonal_manager": value}
    | NotFound                        // 200, {"zonal_manager": "Not Found"}

  /** Python truthiness of a map value: a missing manager is NaN, a float,
      and NaN is truthy; only the empty string is falsy. */
  predicate Truthy(v: Option<string>)
  {
    v.None? || v.value != ""
  }

  /** Both the customer argument and the loaded map must be truthy: present
      and non-empty. */
  predicate LookupInputOk(customer: Option<string>, zmap: Option<map<string, Option<string>>>)
  {
    customer.Some? && customer.value != "" && zmap.Some? && |zmap.value| != 0
  }

  /** The lookup as written: any truthy map value is returned, NaN included. */
  function LookupAsWritten(customer: Option<string>, zmap: Option<map<string, Option<string>>>): (r: ZonalReply)
    ensures r.MissingInput? <==> !LookupInputOk(customer, zmap)
    ensures r.Manager? ==> customer.value in zmap.value && zmap.value[customer.value] == r.value
    ensures r.NotFound? <==> (LookupInputOk(customer, zmap) &&
                              (customer.value !in zmap.value || zmap.value[customer.value] == Some("")))
  {
    if !LookupInputOk(customer, zmap) then MissingInput
    else if customer.value in zmap.value && Truthy(zmap.value[customer.value]) then Manager(zmap.value[customer.value])
    else NotFound
  }

  /** A customer whose manager could not be filled is answered with a null
      manager instead of "Not Found". */
  lemma LookupAsWrittenAnswersNull()
    ensures LookupAsWritten(Some("C"), Some(map["C" := None])) == Manager(None)
  {
  }

  /** The lookup as intended: only a real, non-empty manager name is
      returned; a customer without one is "Not Found". */
  function Lookup(customer: Option<string>, zmap: Option<map<string, Option<string>>>): (r: ZonalReply)
    ensures r.MissingInput? <==> !LookupInputOk(customer, zmap)
    ensures r.Manager? ==> r.value.Some? && r.value.value != ""
                           && customer.value in zmap.value && zmap.value[customer.value] == r.value
    ensures r.NotFound? <==> (LookupInputOk(customer, zmap) &&
                              (customer.value !in zmap.value || zmap.value[customer.value] in {None, Some("")}))
  {
    if !LookupInputOk(customer, zmap) then MissingInput
    else if customer.value in zmap.value && zmap.value[customer.value].Some? && zmap.value[customer.value].value != "" then
      Manager(zmap.value[customer.value])
    else NotFound
  }

  /** The two lookups differ exactly on customers whose map value is null. */
  lemma LookupsDifferOnlyOnNull(customer: Option<string>, zmap: Option<map<string, Option<string>>>)
    ensures LookupAsWritten(customer, zmap) != Lookup(customer, zmap) <==>
              LookupInputOk(customer, zmap) && customer.value in zmap.value && zmap.value[customer.value].None?
  {
  }

  // ---------------------------------------------------------------------
  // GET /get_issue_table (app.py:154-185)
  // ---------------------------------------------------------------------

  /** A field of a JSON record as a table cell: absent from the record,
      JSON null, or a string. Absent and null both become NaN in the table. */
  datatype Cell = Missing | Null | Text(value: string)

  function CellValue(c: Cell): Option<string>
  {
    if c.Text? then Some(c.value) else None
  }

  /** A Serial No record with the six fields the issue table asks for. */
  datatype SerialSummary = SerialSummary(name: Cell, itemName: Cell, itemCode: Cell,
                                         customerInstrumentId: Cell, customer: Cell, amcTypeName: Cell)

  /** A row of the issue table, with `name` renamed `serial_no` and
      `custom_amc_type_name` renamed `amc_type`. */
  datatype IssueRow = IssueRow(serialNo: string, itemName: string, itemCode: string,
                               customerInstrumentId: string, customer: string, amcType: string)

  datatype IssueTableReply =
    | ApiFailure            // 500, "Failed to fetch data from API"
    | Rows(rows: seq<IssueRow>)

  /** The six cells of a record, in the order of the expected columns. */
  function Cells(s: SerialSummary): seq<Cell>
  {
    [s.name, s.itemName, s.itemCode, s.customerInstrumentId, s.customer, s.amcTypeName]
  }

  /** Column `f` exists in the table built from `recs`: some record has the field. */
  predicate HasColumn(recs: seq<SerialSummary>, f: int)
    requires 0 <= f < 6
  {
    exists i :: 0 <= i < |recs| && Cells(recs[i])[f] != Missing
  }

  /** Some expected column is missing from the table. */
  predicate SomeColumnMissing(recs: seq<SerialSummary>)
  {
    exists f :: 0 <= f < 6 && !HasColumn(recs, f)
  }

  /** A record with a string in all six fields survives `dropna()`. */
  predicate Complete(s: SerialSummary)
  {
    s.name.Text? && s.itemName.Text? && s.itemCode.Text? &&
    s.customerInstrumentId.Text? && s.customer.Text? && s.amcTypeName.Text?
  }

  function ToIssueRow(s: SerialSummary): (r: IssueRow)
    requires Complete(s)
    ensures forall f :: 0 <= f < 6 ==> Cells(s)[f] == Text([r.serialNo, r.itemName, r.itemCode,
                                          r.customerInstrumentId, r.customer, r.amcType][f])
  {
    IssueRow(s.name.value, s.itemName.value, s.itemCode.value,
             s.customerInstrumentId.value, s.customer.value, s.amcTypeName.value)
  }

  /** `df[expected_columns].dropna().to_dict(orient='records')`: the complete
      records, in order. */
  function CompleteRows(recs: seq<SerialSummary>): (out: seq<IssueRow>)
    ensures |out| <= |recs|
    ensures forall i :: 0 <= i < |recs| && Complete(recs[i]) ==> ToIssueRow(recs[i]) in out
    ensures forall x :: x in out ==> exists i :: 0 <= i < |recs| && Complete(recs[i]) && x == ToIssueRow(recs[i])
    ensures out == [] <==> forall i :: 0 <= i < |recs| ==> !Complete(recs[i])
  {
    if recs == [] then []
    else
      var rest := CompleteRows(recs[1..]);
      assert forall i :: 1 <= i < |recs| ==> recs[i] == recs[1..][i - 1];
      if Complete(recs[0]) then [ToIssueRow(recs[0])] + rest else rest
  }

  /** `dropna()` keeps rows in order and each exactly once: the complete
      rows of two tables one after the other are those of the first
      followed by those of the second. */
  lemma {:induction false} CompleteRowsAppend(a: seq<SerialSummary>, b: seq<SerialSummary>)
    ensures CompleteRows(a + b) == CompleteRows(a) + CompleteRows(b)
  {
    if a == [] {
      assert a + b == b;
    } else {
      var head := if Complete(a[0]) then [ToIssueRow(a[0])] else [];
      assert (a + b)[0] == a[0] && (a + b)[1..] == a[1..] + b;
      CompleteRowsAppend(a[1..], b);
      ConcatAssoc(head, CompleteRows(a[1..]), CompleteRows(b));
    }
  }

  /** A one-record table yields its row when the record is complete, and nothing otherwise. */
  lemma CompleteRowsOne(s: SerialSummary)
    ensures CompleteRows([s]) == if Complete(s) then [ToIssueRow(s)] else []
  {
    assert [s][1..] == [];
  }

  /** The issue table handler after the request: a failed request is a 500;
      an empty table or a table lacking an expected column is an empty list;
      otherwise the complete records. */
  function IssueTable(status: int, recs: seq<SerialSummary>): (r: IssueTableReply)
    ensures r.ApiFailure? <==> status != 200
    ensures r.Rows? && (recs == [] || SomeColumnMissing(recs)) ==> r.rows == []
    ensures r.Rows? ==> forall x :: x in r.rows ==>
              exists i :: 0 <= i < |recs| && Complete(recs[i]) && x == ToIssueRow(recs[i])
  {
    if status != 200 then ApiFailure
    else if recs == [] then Rows([])
    else if SomeColumnMissing(recs) then Rows([])
    else Rows(CompleteRows(recs))
  }

  /** The two early returns never hide a row: a table lacking a column has
      no complete record, so every successful reply is exactly the complete
      records, and none of them is dropped. */
  lemma IssueTableIsDropna(recs: seq<SerialSummary>)
    ensures IssueTable(200, recs) == Rows(CompleteRows(recs))
    ensures forall i :: 0 <= i < |recs| && Complete(recs[i]) ==> ToIssueRow(recs[i]) in IssueTable(200, recs).rows
  {
    if SomeColumnMissing(recs) {
      MissingColumnNothingComplete(recs);
    }
  }

  /** A column missing from every record leaves no record complete. */
  lemma MissingColumnNothingComplete(recs: seq<SerialSummary>)
    requires SomeColumnMissing(recs)
    ensures forall i :: 0 <= i < |recs| ==> !Complete(recs[i])
  {
    var f :| 0 <= f < 6 && !HasColumn(recs, f);
    forall i | 0 <= i < |recs| ensures !Complete(recs[i]) {
      assert Cells(recs[i])[f] == Missing;
    }
  }

  // ---------------------------------------------------------------------
  // Warranty status (app.py:252-257)
  // ---------------------------------------------------------------------

  /** A calendar date, as `datetime.date` holds it. */
  datatype Date = Date(year: int, month: int, day: int)

  /** `a <= b` for dates: year, then month, then day. */
  predicate OnOrBefore(a: Date, b: Date)
  {
    a.year < b.year || (a.year == b.year && (a.month < b.month || (a.month == b.month && a.day <= b.day)))
  }

  /** `a < b` for dates. */
  predicate StrictlyBefore(a: Date, b: Date)
  {
    OnOrBefore(a, b) && a != b
  }

  /** The date order is a total order. */
  lemma DateOrderTotal(a: Date, b: Date, c: Date)
    ensures OnOrBefore(a, a)
    ensures OnOrBefore(a, b) && OnOrBefore(b, a) ==> a == b
    ensures OnOrBefore(a, b) && OnOrBefore(b, c) ==> OnOrBefore(a, c)
    ensures OnOrBefore(a, b) || StrictlyBefore(b, a)
  {
  }

  /** The maintenance status of a warranty expiry date: `None` when the
      date cannot be parsed (the `except` branch). */
  function WarrantyStatus(expiry: Option<Date>, today: Date): (s: string)
    ensures s == "Unknown" <==> expiry.None?
    ensures s == "Under Warranty" <==> expiry.Some? && OnOrBefore(today, expiry.value)
    ensures s == "Out of Warranty" <==> expiry.Some? && StrictlyBefore(expiry.value, today)
  {
    match expiry
    case None => "Unknown"
    case Some(d) => if OnOrBefore(today, d) then "Under Warranty" else "Out of Warranty"
  }

  /** A warranty is still in force on its expiry day and over on the next. */
  lemma WarrantyEndsAfterExpiryDay(d: Date, next: Date)
    requires StrictlyBefore(d, next)
    ensures WarrantyStatus(Some(d), d) == "Under Warranty"
    ensures WarrantyStatus(Some(d), next) == "Out of Warranty"
  {
  }

  // ---------------------------------------------------------------------
  // GET /get_serial_details (app.py:188-269)
  // ---------------------------------------------------------------------

  /** A Serial No record with the five fields the details lookup asks for. */
  datatype SerialRecord = SerialRecord(name: Cell, warrantyExpiryDate: Cell, customer: Cell,
                                       itemName: Cell, amcTypeName: Cell)

  /** An Address record: its name (renamed `customer_address`) and the
      linked customer (`link_name`, renamed `customer`). */
  datatype AddressRecord = AddressRecord(customerAddress: Option<string>, customer: Option<string>)

  /** A row of the inner merge of addresses and serial records on `customer`. */
  datatype SerialRow = SerialRow(customerAddress: Option<string>, serial: SerialRecord)

  datatype SerialField = NameField | ExpiryField | CustomerField | ItemField | AmcField

  function Field(s: SerialRecord, f: SerialField): Cell
  {
    match f
    case NameField => s.name
    case ExpiryField => s.warrantyExpiryDate
    case CustomerField => s.customer
    case ItemField => s.itemName
    case AmcField => s.amcTypeName
  }

  /** Column `f` exists in the serial table: some record has the field. */
  predicate SerialColumn(data: seq<SerialRecord>, f: SerialField)
  {
    exists i :: 0 <= i < |data| && Field(data[i], f) != Missing
  }

  /** The answer of the serial details lookup. A 500 is an exception that
      escapes the handler. */
  datatype SerialReply =
    | SerialRequired    // 400, "Serial number is required"
    | SerialNotFound    // 404, "Serial number not found"
    | ServerError       // 500
    | Details(customer: Option<string>, customerAddress: Option<string>, warrantyExpiryDate: Option<string>,
              itemName: Option<string>, maintenanceStatus: string, zonalManager: Option<string>,
              amcType: Option<string>)

  function AddressKey(a: AddressRecord): Option<string> { a.customer }

  function SerialKey(s: SerialRecord): Option<string> { CellValue(s.customer) }

  /** `drop_duplicates(subset='customer', keep='first')` on the addresses,
      then the inner merge with the serial records on `customer`. */
  function SerialJoin(addrs: seq<AddressRecord>, data: seq<SerialRecord>): (rows: seq<SerialRow>)
    ensures forall x :: x in rows ==>
              exists a, s :: (a in addrs && s in data && a.customer == SerialKey(s)
                              && IsFirstOfKey(addrs, AddressKey, a) && x == SerialRow(a.customerAddress, s))
  {
    var deduped := DropDuplicates(addrs, AddressKey);
    var rows := InnerJoin(deduped, data, AddressKey, SerialKey, (a: AddressRecord, s: SerialRecord) => SerialRow(a.customerAddress, s));
    forall x | x in rows
      ensures exists a, s :: a in addrs && s in data && a.customer == SerialKey(s)
                && IsFirstOfKey(addrs, AddressKey, a) && x == SerialRow(a.customerAddress, s)
    {
      var a, s :| a in deduped && s in data && SerialKey(s) == AddressKey(a) && x == SerialRow(a.customerAddress, s);
      var i :| 0 <= i < |deduped| && deduped[i] == a;
    }
    rows
  }

  /** Every serial record whose customer has an address meets that customer's first address. */
  lemma SerialJoinCovers(addrs: seq<AddressRecord>, data: seq<SerialRecord>, s: SerialRecord, a: AddressRecord)
    requires s in data && a in addrs && a.customer == SerialKey(s)
    ensures exists b :: b in addrs && b.customer == a.customer && SerialRow(b.customerAddress, s) in SerialJoin(addrs, data)
  {
    var deduped := DropDuplicates(addrs, AddressKey);
    var i :| 0 <= i < |addrs| && addrs[i] == a;
    assert HasKey(addrs, AddressKey, a.customer);
    var k :| 0 <= k < |deduped| && AddressKey(deduped[k]) == a.customer;
    var b := deduped[k];
    var both := (a: AddressRecord, s: SerialRecord) => SerialRow(a.customerAddress, s);
    assert SerialKey(s) == AddressKey(b) && both(b, s) in InnerJoin(deduped, data, AddressKey, SerialKey, both);
  }

  /** Row `k` is the first row, in table order, named `serial`. */
  ghost predicate IsFirstNamed(rows: seq<SerialRow>, serial: string, k: int)
  {
    0 <= k < |rows| && rows[k].serial.name == Text(serial)
    && forall j :: 0 <= j < k ==> rows[j].serial.name != Text(serial)
  }

  /** `df[df['name'] == serial_no]`, first row (`.iloc[0]`). */
  function FirstWithName(rows: seq<SerialRow>, serial: string): (r: Option<SerialRow>)
    ensures r.None? <==> forall x :: x in rows ==> x.serial.name != Text(serial)
    ensures r.Some? ==> exists k :: IsFirstNamed(rows, serial, k) && rows[k] == r.value
  {
    if rows == [] then None
    else if rows[0].serial.name == Text(serial) then
      assert IsFirstNamed(rows, serial, 0);
      Some(rows[0])
    else
      var r := FirstWithName(rows[1..], serial);
      FirstNamedSkip(rows, serial, r);
      r
  }

  /** A row of another name can be skipped when searching. */
  lemma FirstNamedSkip(rows: seq<SerialRow>, serial: string, r: Option<SerialRow>)
    requires rows != [] && rows[0].serial.name != Text(serial)
    requires r.None? <==> forall x :: x in rows[1..] ==> x.serial.name != Text(serial)
    requires r.Some? ==> exists k :: IsFirstNamed(rows[1..], serial, k) && rows[1..][k] == r.value
    ensures r.None? <==> forall x :: x in rows ==> x.serial.name != Text(serial)
    ensures r.Some? ==> exists k :: IsFirstNamed(rows, serial, k) && rows[k] == r.value
  {
    assert forall x :: x in rows ==> x == rows[0] || x in rows[1..];
    if r.Some? {
      var k :| IsFirstNamed(rows[1..], serial, k) && rows[1..][k] == r.value;
      assert IsFirstNamed(rows, serial, k + 1);
    }
  }

  /** `customer_zonal_manager_map.get(customer_val, '')`: a NaN customer
      is never a key. */
  function ManagerOf(zmap: map<string, Option<string>>, customer: Option<string>): (r: Option<string>)
    ensures customer.Some? && customer.value in zmap ==> r == zmap[customer.value]
    ensures (customer.None? || customer.value !in zmap) ==> r == Some("")
  {
    if customer.Some? && customer.value in zmap then zmap[customer.value] else Some("")
  }

  /** A column that may be absent from the merged table: its cell, or `''`. */
  function OptionalColumn(data: seq<SerialRecord>, f: SerialField, s: SerialRecord): (v: Option<string>)
    ensures !SerialColumn(data, f) ==> v == Some("")
    ensures SerialColumn(data, f) && Field(s, f).Text? ==> v == Some(Field(s, f).value)
    ensures SerialColumn(data, f) && !Field(s, f).Text? ==> v.None?
  {
    if SerialColumn(data, f) then CellValue(Field(s, f)) else Some("")
  }

  /** The maintenance status of a record: a NaN expiry date makes `strptime`
      raise, as does a string `parse` rejects. */
  function MaintenanceStatus(expiry: Cell, parse: string -> Option<Date>, today: Date): (status: string)
    ensures status == "Unknown" <==> !expiry.Text? || parse(expiry.value).None?
    ensures status == "Under Warranty" <==>
              expiry.Text? && parse(expiry.value).Some? && OnOrBefore(today, parse(expiry.value).value)
    ensures status == "Out of Warranty" <==>
              expiry.Text? && parse(expiry.value).Some? && StrictlyBefore(parse(expiry.value).value, today)
  {
    WarrantyStatus(if expiry.Text? then parse(expiry.value) else None, today)
  }

  /** The serial details handler. `serialStatus`/`data` and
      `addrStatus`/`addrs` are the two ERP replies; `zmap` is the map built
      at start-up (`None` when that build failed). */
  function SerialDetails(serial: string, serialStatus: int, data: seq<SerialRecord>,
                         addrStatus: int, addrs: seq<AddressRecord>,
                         zmap: Option<map<string, Option<string>>>,
                         parse: string -> Option<Date>, today: Date): (r: SerialReply)
    ensures r.SerialRequired? <==> serial == ""
    ensures serial != "" && (serialStatus != 200 || data == [] || addrStatus != 200) ==> r.SerialNotFound?
    ensures (&& serial != "" && serialStatus == 200 && addrStatus == 200 && data != [] && addrs != []
             && SerialColumn(data, CustomerField) && SerialColumn(data, NameField)
             && !Addressed(serial, data, addrs)) ==> r.SerialNotFound?
    ensures r.Details? ==> ReportsRecord(r, serial, data, addrs, parse, today)
    ensures r.Details? ==> zmap.Some? && r.zonalManager == ManagerOf(zmap.value, r.customer)
  {
    if serial == "" then SerialRequired
    else if serialStatus != 200 || data == [] || addrStatus != 200 then SerialNotFound
    else if addrs == [] || !SerialColumn(data, CustomerField) then ServerError
    else
      var rows := SerialJoin(addrs, data);
      if rows == [] then SerialNotFound
      else if !SerialColumn(data, NameField) then ServerError
      else match FirstWithName(rows, serial)
        case None => SerialNotFound
        case Some(row) =>
          JoinedRowAddressed(serial, data, addrs, row);
          if !SerialColumn(data, ExpiryField) || zmap.None? then ServerError
          else
            var s := row.serial;
            var customer := SerialKey(s);
            var d := Details(customer, row.customerAddress, CellValue(s.warrantyExpiryDate),
                             OptionalColumn(data, ItemField, s), MaintenanceStatus(s.warrantyExpiryDate, parse, today),
                             ManagerOf(zmap.value, customer), OptionalColumn(data, AmcField, s));
            RowReports(serial, data, addrs, row, parse, today, d);
            d
  }

  /** Details reply `r` reports a record named `serial` and the first
      address of that record's customer: customer, address, expiry date,
      item name, AMC type and maintenance status all come from them. */
  ghost predicate ReportsRecord(r: SerialReply, serial: string, data: seq<SerialRecord>, addrs: seq<AddressRecord>,
                                parse: string -> Option<Date>, today: Date)
    requires r.Details?
  {
    exists s, a :: (s in data && s.name == Text(serial) && a in addrs
                    && IsFirstOfKey(addrs, AddressKey, a) && a.customer == SerialKey(s)
                    && r.customer == SerialKey(s) && r.customerAddress == a.customerAddress
                    && r.warrantyExpiryDate == CellValue(s.warrantyExpiryDate)
                    && r.itemName == OptionalColumn(data, ItemField, s)
                    && r.amcType == OptionalColumn(data, AmcField, s)
                    && r.maintenanceStatus == MaintenanceStatus(s.warrantyExpiryDate, parse, today))
  }

  lemma RowReports(serial: string, data: seq<SerialRecord>, addrs: seq<AddressRecord>, row: SerialRow,
                   parse: string -> Option<Date>, today: Date, d: SerialReply)
    requires row in SerialJoin(addrs, data) && row.serial.name == Text(serial)
    requires d.Details? && d.customer == SerialKey(row.serial) && d.customerAddress == row.customerAddress
    requires d.warrantyExpiryDate == CellValue(row.serial.warrantyExpiryDate)
    requires d.itemName == OptionalColumn(data, ItemField, row.serial)
    requires d.amcType == OptionalColumn(data, AmcField, row.serial)
    requires d.maintenanceStatus == MaintenanceStatus(row.serial.warrantyExpiryDate, parse, today)
    ensures ReportsRecord(d, serial, data, addrs, parse, today)
  {
    var a, s :| a in addrs && s in data && a.customer == SerialKey(s)
                && IsFirstOfKey(addrs, AddressKey, a) && row == SerialRow(a.customerAddress, s);
  }

  /** A merged row of that name pairs a record of that name with an address of its customer. */
  lemma JoinedRowAddressed(serial: string, data: seq<SerialRecord>, addrs: seq<AddressRecord>, row: SerialRow)
    requires FirstWithName(SerialJoin(addrs, data), serial) == Some(row)
    ensures Addressed(serial, data, addrs)
  {
    var rows := SerialJoin(addrs, data);
    var k :| IsFirstNamed(rows, serial, k) && rows[k] == row;
    assert row in rows;
    var a, s :| a in addrs && s in data && a.customer == SerialKey(s) && row == SerialRow(a.customerAddress, s);
  }

  /** A record of that name whose customer has an address yields a row of that name. */
  lemma NamedRecordJoined(addrs: seq<AddressRecord>, data: seq<SerialRecord>, serial: string, s: SerialRecord, a: AddressRecord)
    requires s in data && s.name == Text(serial) && a in addrs && a.customer == SerialKey(s)
    ensures FirstWithName(SerialJoin(addrs, data), serial).Some?
  {
    SerialJoinCovers(addrs, data, s, a);
  }

  /** When the ERP answers, the records carry the fields asked for and the
      map was built, a serial number is found exactly when a record of that
      name has a customer with an address. */
  lemma SerialFoundIffAddressed(serial: string, data: seq<SerialRecord>, addrs: seq<AddressRecord>,
                                zmap: map<string, Option<string>>, parse: string -> Option<Date>, today: Date)
    requires serial != "" && data != [] && addrs != []
    requires SerialColumn(data, CustomerField) && SerialColumn(data, NameField) && SerialColumn(data, ExpiryField)
    ensures SerialDetails(serial, 200, data, 200, addrs, Some(zmap), parse, today).Details? <==>
              Addressed(serial, data, addrs)
  {
    if Addressed(serial, data, addrs) {
      var s, a :| s in data && s.name == Text(serial) && a in addrs && a.customer == SerialKey(s);
      NamedRecordJoined(addrs, data, serial, s, a);
      FoundWhenJoined(serial, data, addrs, zmap, parse, today);
    } else {
      FoundOnlyIfAddressed(serial, data, addrs, zmap, parse, today);
    }
  }

  lemma FoundWhenJoined(serial: string, data: seq<SerialRecord>, addrs: seq<AddressRecord>,
                        zmap: map<string, Option<string>>, parse: string -> Option<Date>, today: Date)
    requires serial != "" && data != [] && addrs != []
    requires SerialColumn(data, CustomerField) && SerialColumn(data, NameField) && SerialColumn(data, ExpiryField)
    requires FirstWithName(SerialJoin(addrs, data), serial).Some?
    ensures SerialDetails(serial, 200, data, 200, addrs, Some(zmap), parse, today).Details?
  {
  }

  /** Some record named `serial` has a customer with an address. */
  ghost predicate Addressed(serial: string, data: seq<SerialRecord>, addrs: seq<AddressRecord>)
  {
    exists s, a :: s in data && s.name == Text(serial) && a in addrs && a.customer == SerialKey(s)
  }

  lemma FoundOnlyIfAddressed(serial: string, data: seq<SerialRecord>, addrs: seq<AddressRecord>,
                             zmap: map<string, Option<string>>, parse: string -> Option<Date>, today: Date)
    ensures SerialDetails(serial, 200, data, 200, addrs, Some(zmap), parse, today).Details? ==>
              Addressed(serial, data, addrs)
  {
  }
}
