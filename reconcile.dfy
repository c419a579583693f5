/** The one-time build of the customer to zonal-manager table
    (app.py, `load_and_preprocess_data` and its inner `fill_zonal_managers`).

    The four ERP collections arrive as parameters. A table is a sequence of
    records; a nullable cell is an `Option<string>`. */
module Reconcile {
  import opened Wrappers
  import opened Tables

  // ---------------------------------------------------------------------
  // Fetched ERP rows
  // ---------------------------------------------------------------------

  /** A Service Person record: its name (the name the manager is recorded
      under), the employee it belongs to and its territory. */
  datatype ServicePerson = ServicePerson(name: string, employee: Option<string>, territory: Option<string>)

  /** An active Area Service Manager: the record name, renamed `employee`,
      and `employee_name`. */
  datatype Employee = Employee(employee: string, employeeName: Option<string>)

  datatype Customer = Customer(name: string, territory: Option<string>)

  /** A Territory record: `territory_name`, renamed `territory`, and its parent. */
  datatype Territory = Territory(territory: string, parentTerritory: Option<string>)

  /** The reply to one collection request: its HTTP status and the rows of its `data`. */
  datatype Fetched<T> = Fetched(status: int, rows: seq<T>)

  // ---------------------------------------------------------------------
  // Intermediate tables
  // ---------------------------------------------------------------------

  /** A row of the manager table: an employee, the Service Person name as
      `zonal_manager` and the Service Person territory as `parent_territory`. */
  datatype ManagerRow = ManagerRow(employee: string, employeeName: Option<string>,
                                   zonalManager: Option<string>, parentTerritory: Option<string>)

  /** A customer with the parent of its territory. */
  datatype CustomerRow = CustomerRow(name: string, territory: Option<string>, parentTerritory: Option<string>)

  /** A row of the joined table: a customer (`name`, `territory`), its
      parent territory, and a candidate manager for it. */
  datatype Row = Row(employee: Option<string>, employeeName: Option<string>, zonalManager: Option<string>,
                     parentTerritory: Option<string>, name: string, territory: Option<string>)

  // ---------------------------------------------------------------------
  // Manager table (app.py:61-78)
  // ---------------------------------------------------------------------

  /** The Employee / Service Person left merge on `employee`, with the
      Service Person's `name` and `territory` renamed (app.py:64-65). */
  function EmployeeManagers(emps: seq<Employee>, sps: seq<ServicePerson>): (r: seq<ManagerRow>)
    ensures |r| >= |emps|
    ensures forall e, sp :: e in emps && sp in sps && sp.employee == Some(e.employee) ==>
              ManagerRow(e.employee, e.employeeName, Some(sp.name), sp.territory) in r
    ensures forall e :: e in emps && (forall sp :: sp in sps ==> sp.employee != Some(e.employee)) ==>
              ManagerRow(e.employee, e.employeeName, None, None) in r
    ensures forall m :: m in r ==> exists e :: e in emps && m.employee == e.employee && m.employeeName == e.employeeName
    ensures forall m :: m in r && m.zonalManager.Some? ==>
              exists sp :: sp in sps && sp.employee == Some(m.employee)
                           && m.zonalManager == Some(sp.name) && m.parentTerritory == sp.territory
  {
    var r := LeftJoin(emps, sps, EmployeeKey, ServicePersonKey, WithServicePerson, WithoutServicePerson);
    EmployeeManagersCover(emps, sps, r);
    EmployeeManagersFrom(emps, sps, r);
    r
  }

  function EmployeeKey(e: Employee): Option<string> { Some(e.employee) }
  function ServicePersonKey(sp: ServicePerson): Option<string> { sp.employee }

  function WithServicePerson(e: Employee, sp: ServicePerson): ManagerRow
  {
    ManagerRow(e.employee, e.employeeName, Some(sp.name), sp.territory)
  }

  function WithoutServicePerson(e: Employee): ManagerRow
  {
    ManagerRow(e.employee, e.employeeName, None, None)
  }

  lemma EmployeeManagersCover(emps: seq<Employee>, sps: seq<ServicePerson>, r: seq<ManagerRow>)
    requires r == LeftJoin(emps, sps, EmployeeKey, ServicePersonKey, WithServicePerson, WithoutServicePerson)
    ensures forall e, sp :: e in emps && sp in sps && sp.employee == Some(e.employee) ==>
              ManagerRow(e.employee, e.employeeName, Some(sp.name), sp.territory) in r
    ensures forall e :: e in emps && (forall sp :: sp in sps ==> sp.employee != Some(e.employee)) ==>
              ManagerRow(e.employee, e.employeeName, None, None) in r
  {
    forall e, sp | e in emps && sp in sps && sp.employee == Some(e.employee)
      ensures ManagerRow(e.employee, e.employeeName, Some(sp.name), sp.territory) in r
    {
      assert ServicePersonKey(sp) == EmployeeKey(e) && WithServicePerson(e, sp) in r;
    }
    forall e | e in emps && (forall sp :: sp in sps ==> sp.employee != Some(e.employee))
      ensures ManagerRow(e.employee, e.employeeName, None, None) in r
    {
      assert NoMatch(EmployeeKey(e), sps, ServicePersonKey) && WithoutServicePerson(e) in r;
    }
  }

  lemma EmployeeManagersFrom(emps: seq<Employee>, sps: seq<ServicePerson>, r: seq<ManagerRow>)
    requires r == LeftJoin(emps, sps, EmployeeKey, ServicePersonKey, WithServicePerson, WithoutServicePerson)
    ensures forall m :: m in r ==> exists e :: e in emps && m.employee == e.employee && m.employeeName == e.employeeName
    ensures forall m :: m in r && m.zonalManager.Some? ==>
              exists sp :: sp in sps && sp.employee == Some(m.employee)
                           && m.zonalManager == Some(sp.name) && m.parentTerritory == sp.territory
  {
    forall m | m in r
      ensures exists e :: e in emps && m.employee == e.employee && m.employeeName == e.employeeName
      ensures m.zonalManager.Some? ==>
                exists sp :: sp in sps && sp.employee == Some(m.employee)
                             && m.zonalManager == Some(sp.name) && m.parentTerritory == sp.territory
    {
      var e :| e in emps && JoinedFrom(m, e, sps, EmployeeKey, ServicePersonKey, WithServicePerson, WithoutServicePerson);
      ManagerRowFrom(sps, m, e);
    }
  }

  lemma ManagerRowFrom(sps: seq<ServicePerson>, m: ManagerRow, e: Employee)
    requires JoinedFrom(m, e, sps, EmployeeKey, ServicePersonKey, WithServicePerson, WithoutServicePerson)
    ensures m.employee == e.employee && m.employeeName == e.employeeName
    ensures m.zonalManager.Some? ==>
              exists sp :: sp in sps && sp.employee == Some(m.employee)
                           && m.zonalManager == Some(sp.name) && m.parentTerritory == sp.territory
  {
    if m.zonalManager.Some? {
      var sp :| sp in sps && ServicePersonKey(sp) == EmployeeKey(e) && m == WithServicePerson(e, sp);
    }
  }

  /** The two rows added by hand for managers missing from the ERP (app.py:68-73). */
  const ManualRows: seq<ManagerRow> := [
    ManagerRow("EL1700001", Some("Shivam Kumar"), Some("Shivam Kumar"), Some("East")),
    ManagerRow("001100001", Some("Anuraj T. R"), Some("Anuraj T. R"), Some("South 3"))
  ]

  /** The whole-value corrections of recorded manager names, in the order
      they are applied (app.py:75-78): (recorded spelling, canonical spelling). */
  const NameCorrections: seq<(string, string)> := [
    ("Anuraj T. R", "Anuraj T"),
    ("Subrahmanyam Somagani", "S.Somagani"),
    ("Vivek Singh Chauhan", "Vivek Chauhan"),
    ("Tousif Rauf Baig Mirza", "Tausif Mirza")
  ]

  /** `df['zonal_manager'].replace(from, to)`: every manager equal to `from`
      as a whole becomes `to`; nulls and all other values stay. */
  function ReplaceManager(t: seq<ManagerRow>, from: string, to: string): (r: seq<ManagerRow>)
    ensures |r| == |t|
    ensures forall i :: 0 <= i < |t| ==> r[i] == t[i].(zonalManager := r[i].zonalManager)
    ensures forall i :: 0 <= i < |t| && t[i].zonalManager == Some(from) ==> r[i].zonalManager == Some(to)
    ensures forall i :: 0 <= i < |t| && t[i].zonalManager != Some(from) ==> r[i] == t[i]
  {
    seq(|t|, i requires 0 <= i < |t| =>
      if t[i].zonalManager == Some(from) then t[i].(zonalManager := Some(to)) else t[i])
  }

  /** The spelling a recorded name is corrected to: the target of the first
      correction whose source is the whole name, or the name itself. */
  function Canonical(name: string, corrections: seq<(string, string)>): string
  {
    if corrections == [] then name
    else if corrections[0].0 == name then corrections[0].1
    else Canonical(name, corrections[1..])
  }

  /** The correction table spelled out. */
  lemma CanonicalCases(name: string)
    ensures Canonical(name, NameCorrections) ==
      if name == "Anuraj T. R" then "Anuraj T"
      else if name == "Subrahmanyam Somagani" then "S.Somagani"
      else if name == "Vivek Singh Chauhan" then "Vivek Chauhan"
      else if name == "Tousif Rauf Baig Mirza" then "Tausif Mirza"
      else name
  {
    var c := NameCorrections;
    var c1, c2, c3 := c[1..], c[1..][1..], c[1..][1..][1..];
    assert c3[1..] == [];
    assert Canonical(name, c3) == if name == "Tousif Rauf Baig Mirza" then "Tausif Mirza" else name;
    assert Canonical(name, c2) == if name == "Vivek Singh Chauhan" then "Vivek Chauhan" else Canonical(name, c3);
    assert Canonical(name, c1) == if name == "Subrahmanyam Somagani" then "S.Somagani" else Canonical(name, c2);
  }

  function CanonicalManager(zm: Option<string>): Option<string>
  {
    match zm
    case None => None
    case Some(n) => Some(Canonical(n, NameCorrections))
  }

  /** The manager table with every manager name corrected. */
  function NormalizeManagers(t: seq<ManagerRow>): seq<ManagerRow>
  {
    seq(|t|, i requires 0 <= i < |t| => t[i].(zonalManager := CanonicalManager(t[i].zonalManager)))
  }

  /** The four successive replacements of app.py:75-78 amount to looking
      each name up in the correction table: no corrected spelling is the
      source of a later correction, so the replacements never chain. */
  lemma ReplacementsAreCorrections(t: seq<ManagerRow>)
    ensures ReplaceManager(ReplaceManager(ReplaceManager(ReplaceManager(t,
              "Anuraj T. R", "Anuraj T"), "Subrahmanyam Somagani", "S.Somagani"),
              "Vivek Singh Chauhan", "Vivek Chauhan"), "Tousif Rauf Baig Mirza", "Tausif Mirza")
            == NormalizeManagers(t)
  {
    var t1 := ReplaceManager(t, "Anuraj T. R", "Anuraj T");
    var t2 := ReplaceManager(t1, "Subrahmanyam Somagani", "S.Somagani");
    var t3 := ReplaceManager(t2, "Vivek Singh Chauhan", "Vivek Chauhan");
    var t4 := ReplaceManager(t3, "Tousif Rauf Baig Mirza", "Tausif Mirza");
    forall i | 0 <= i < |t| ensures t4[i] == NormalizeManagers(t)[i] {
      if t[i].zonalManager.Some? {
        CanonicalCases(t[i].zonalManager.value);
      }
    }
  }

  /** A correction changes a name only when the whole name is one of the
      recorded spellings; the result is never itself a recorded spelling. */
  lemma {:induction false} CanonicalWholeValue(name: string)
    ensures Canonical(name, NameCorrections) != name ==>
              exists k :: 0 <= k < |NameCorrections| && NameCorrections[k] == (name, Canonical(name, NameCorrections))
    ensures forall k :: 0 <= k < |NameCorrections| ==> Canonical(name, NameCorrections) != NameCorrections[k].0
  {
    var c := NameCorrections;
    CanonicalCases(name);
    if Canonical(name, c) != name {
      if name == c[0].0 { assert c[0] == (name, Canonical(name, c)); }
      else if name == c[1].0 { assert c[1] == (name, Canonical(name, c)); }
      else if name == c[2].0 { assert c[2] == (name, Canonical(name, c)); }
      else { assert c[3] == (name, Canonical(name, c)); }
    }
  }

  /** The manager table (app.py:64-78): employees joined to their Service
      Persons, the manual rows appended, and the names corrected. */
  function ManagerTable(emps: seq<Employee>, sps: seq<ServicePerson>): seq<ManagerRow>
  {
    NormalizeManagers(EmployeeManagers(emps, sps) + ManualRows)
  }

  /** The manual "Anuraj T. R" row ends up under its corrected name, and no
      manager of the table is left under a corrected spelling. */
  lemma ManualRowCorrected(emps: seq<Employee>, sps: seq<ServicePerson>)
    ensures ManagerRow("001100001", Some("Anuraj T. R"), Some("Anuraj T"), Some("South 3")) in ManagerTable(emps, sps)
    ensures forall m, k :: m in ManagerTable(emps, sps) && 0 <= k < |NameCorrections| ==>
              m.zonalManager != Some(NameCorrections[k].0)
  {
    var t := EmployeeManagers(emps, sps) + ManualRows;
    var n := NormalizeManagers(t);
    assert t[|t| - 1] == ManualRows[1];
    assert NameCorrections[0] == ("Anuraj T. R", "Anuraj T");
    assert n[|t| - 1] == ManagerRow("001100001", Some("Anuraj T. R"), Some("Anuraj T"), Some("South 3"));
    NormalizedHasNoRecordedSpelling(t);
  }

  /** After correction no manager of any table is a recorded spelling. */
  lemma NormalizedHasNoRecordedSpelling(t: seq<ManagerRow>)
    ensures forall m, k :: m in NormalizeManagers(t) && 0 <= k < |NameCorrections| ==>
              m.zonalManager != Some(NameCorrections[k].0)
  {
    var n := NormalizeManagers(t);
    forall m, k | m in n && 0 <= k < |NameCorrections| ensures m.zonalManager != Some(NameCorrections[k].0) {
      var i :| 0 <= i < |n| && n[i] == m;
      if t[i].zonalManager.Some? {
        CanonicalWholeValue(t[i].zonalManager.value);
      }
    }
  }

  // ---------------------------------------------------------------------
  // Customer table and the joined table (app.py:111-112)
  // ---------------------------------------------------------------------

  /** The Customer / Territory left merge on `territory` (app.py:111): each
      customer with the parent of its territory, or a null parent when its
      territory is unknown. */
  function CustomerTable(cs: seq<Customer>, ts: seq<Territory>): (r: seq<CustomerRow>)
    ensures |r| >= |cs|
    ensures forall c, t :: c in cs && t in ts && Some(t.territory) == c.territory ==>
              CustomerRow(c.name, c.territory, t.parentTerritory) in r
    ensures forall c :: c in cs && (forall t :: t in ts ==> Some(t.territory) != c.territory) ==>
              CustomerRow(c.name, c.territory, None) in r
    ensures forall x :: x in r ==>
              exists c :: (c in cs && x.name == c.name && x.territory == c.territory &&
                ((exists t :: t in ts && Some(t.territory) == c.territory && x.parentTerritory == t.parentTerritory)
                 || ((forall t :: t in ts ==> Some(t.territory) != c.territory) && x.parentTerritory.None?)))
  {
    var r := LeftJoin(cs, ts, CustomerKey, TerritoryKey, WithTerritory, WithoutTerritory);
    CustomerTableCover(cs, ts, r);
    CustomerTableFrom(cs, ts, r);
    r
  }

  function CustomerKey(c: Customer): Option<string> { c.territory }
  function TerritoryKey(t: Territory): Option<string> { Some(t.territory) }

  function WithTerritory(c: Customer, t: Territory): CustomerRow
  {
    CustomerRow(c.name, c.territory, t.parentTerritory)
  }

  function WithoutTerritory(c: Customer): CustomerRow
  {
    CustomerRow(c.name, c.territory, None)
  }

  lemma CustomerTableCover(cs: seq<Customer>, ts: seq<Territory>, r: seq<CustomerRow>)
    requires r == LeftJoin(cs, ts, CustomerKey, TerritoryKey, WithTerritory, WithoutTerritory)
    ensures forall c, t :: c in cs && t in ts && Some(t.territory) == c.territory ==>
              CustomerRow(c.name, c.territory, t.parentTerritory) in r
    ensures forall c :: c in cs && (forall t :: t in ts ==> Some(t.territory) != c.territory) ==>
              CustomerRow(c.name, c.territory, None) in r
  {
    forall c, t | c in cs && t in ts && Some(t.territory) == c.territory
      ensures CustomerRow(c.name, c.territory, t.parentTerritory) in r
    {
      assert TerritoryKey(t) == CustomerKey(c) && WithTerritory(c, t) in r;
    }
    forall c | c in cs && (forall t :: t in ts ==> Some(t.territory) != c.territory)
      ensures CustomerRow(c.name, c.territory, None) in r
    {
      assert NoMatch(CustomerKey(c), ts, TerritoryKey) && WithoutTerritory(c) in r;
    }
  }

  lemma CustomerTableFrom(cs: seq<Customer>, ts: seq<Territory>, r: seq<CustomerRow>)
    requires r == LeftJoin(cs, ts, CustomerKey, TerritoryKey, WithTerritory, WithoutTerritory)
    ensures forall x :: x in r ==>
              exists c :: (c in cs && x.name == c.name && x.territory == c.territory &&
                ((exists t :: t in ts && Some(t.territory) == c.territory && x.parentTerritory == t.parentTerritory)
                 || ((forall t :: t in ts ==> Some(t.territory) != c.territory) && x.parentTerritory.None?)))
  {
    forall x | x in r
      ensures exists c :: (c in cs && x.name == c.name && x.territory == c.territory &&
                ((exists t :: t in ts && Some(t.territory) == c.territory && x.parentTerritory == t.parentTerritory)
                 || ((forall t :: t in ts ==> Some(t.territory) != c.territory) && x.parentTerritory.None?)))
    {
      var c :| c in cs && JoinedFrom(x, c, ts, CustomerKey, TerritoryKey, WithTerritory, WithoutTerritory);
      CustomerRowFrom(ts, x, c);
    }
  }

  lemma CustomerRowFrom(ts: seq<Territory>, x: CustomerRow, c: Customer)
    requires JoinedFrom(x, c, ts, CustomerKey, TerritoryKey, WithTerritory, WithoutTerritory)
    ensures x.name == c.name && x.territory == c.territory
    ensures || (exists t :: t in ts && Some(t.territory) == c.territory && x.parentTerritory == t.parentTerritory)
            || ((forall t :: t in ts ==> Some(t.territory) != c.territory) && x.parentTerritory.None?)
  {
    if !NoMatch(CustomerKey(c), ts, TerritoryKey) || x != WithoutTerritory(c) {
      var t :| t in ts && TerritoryKey(t) == CustomerKey(c) && x == WithTerritory(c, t);
    }
  }

  /** Joined row `x` carries the customer, territory and parent territory
      of a row of `custs`. */
  ghost predicate FromCustomer(x: Row, custs: seq<CustomerRow>)
  {
    exists c :: c in custs && x.name == c.name && x.territory == c.territory && x.parentTerritory == c.parentTerritory
  }

  /** A manager in joined row `x` is listed in `mgrs` under the row's parent territory. */
  ghost predicate ManagerListed(x: Row, mgrs: seq<ManagerRow>)
  {
    x.zonalManager.Some? ==>
      exists m :: m in mgrs && m.parentTerritory == x.parentTerritory && m.zonalManager == x.zonalManager
  }

  /** The right merge of the manager table onto the customer table on
      `parent_territory` (app.py:112): each customer row, in order, once per
      manager of its parent territory, or once with no manager. */
  function Joined(mgrs: seq<ManagerRow>, custs: seq<CustomerRow>): (r: seq<Row>)
    ensures |r| >= |custs|
    ensures forall c, m :: c in custs && m in mgrs && m.parentTerritory == c.parentTerritory ==>
              Row(Some(m.employee), m.employeeName, m.zonalManager, c.parentTerritory, c.name, c.territory) in r
    ensures forall c :: c in custs && (forall m :: m in mgrs ==> m.parentTerritory != c.parentTerritory) ==>
              Row(None, None, None, c.parentTerritory, c.name, c.territory) in r
    ensures forall x :: x in r ==> FromCustomer(x, custs) && ManagerListed(x, mgrs)
  {
    var r := LeftJoin(custs, mgrs, ParentKey, ManagerKey, WithManager, WithoutManager);
    JoinedCover(mgrs, custs, r);
    forall x | x in r ensures FromCustomer(x, custs) && ManagerListed(x, mgrs) {
      var c :| c in custs && JoinedFrom(x, c, mgrs, ParentKey, ManagerKey, WithManager, WithoutManager);
      JoinedRowFrom(mgrs, custs, x, c);
    }
    r
  }

  function ParentKey(c: CustomerRow): Option<string> { c.parentTerritory }
  function ManagerKey(m: ManagerRow): Option<string> { m.parentTerritory }

  function WithManager(c: CustomerRow, m: ManagerRow): Row
  {
    Row(Some(m.employee), m.employeeName, m.zonalManager, c.parentTerritory, c.name, c.territory)
  }

  function WithoutManager(c: CustomerRow): Row
  {
    Row(None, None, None, c.parentTerritory, c.name, c.territory)
  }

  lemma JoinedCover(mgrs: seq<ManagerRow>, custs: seq<CustomerRow>, r: seq<Row>)
    requires r == LeftJoin(custs, mgrs, ParentKey, ManagerKey, WithManager, WithoutManager)
    ensures forall c, m :: c in custs && m in mgrs && m.parentTerritory == c.parentTerritory ==>
              Row(Some(m.employee), m.employeeName, m.zonalManager, c.parentTerritory, c.name, c.territory) in r
    ensures forall c :: c in custs && (forall m :: m in mgrs ==> m.parentTerritory != c.parentTerritory) ==>
              Row(None, None, None, c.parentTerritory, c.name, c.territory) in r
  {
    forall c, m | c in custs && m in mgrs && m.parentTerritory == c.parentTerritory
      ensures Row(Some(m.employee), m.employeeName, m.zonalManager, c.parentTerritory, c.name, c.territory) in r
    {
      assert ManagerKey(m) == ParentKey(c) && WithManager(c, m) in r;
    }
    forall c | c in custs && (forall m :: m in mgrs ==> m.parentTerritory != c.parentTerritory)
      ensures Row(None, None, None, c.parentTerritory, c.name, c.territory) in r
    {
      assert NoMatch(ParentKey(c), mgrs, ManagerKey) && WithoutManager(c) in r;
    }
  }

  lemma JoinedRowFrom(mgrs: seq<ManagerRow>, custs: seq<CustomerRow>, x: Row, c: CustomerRow)
    requires c in custs && JoinedFrom(x, c, mgrs, ParentKey, ManagerKey, WithManager, WithoutManager)
    ensures FromCustomer(x, custs) && ManagerListed(x, mgrs)
  {
    if !NoMatch(ParentKey(c), mgrs, ManagerKey) || x != WithoutManager(c) {
      var m :| m in mgrs && ManagerKey(m) == ParentKey(c) && x == WithManager(c, m);
    }
  }

  // ---------------------------------------------------------------------
  // Filling missing managers (app.py:114-127)
  // ---------------------------------------------------------------------

  /** The two columns the fill passes group or search by. */
  datatype Column = ParentTerritoryColumn | TerritoryColumn

  function Key(x: Row, c: Column): Option<string>
  {
    match c
    case ParentTerritoryColumn => x.parentTerritory
    case TerritoryColumn => x.territory
  }

  /** Row `k` holds `p` in column `c` and has a manager. */
  predicate Supplies(t: seq<Row>, c: Column, p: string, k: int)
    requires 0 <= k < |t|
  {
    Key(t[k], c) == Some(p) && t[k].zonalManager.Some?
  }

  /** Some row holds `p` in column `c` and has a manager. */
  ghost predicate HasSupplier(t: seq<Row>, c: Column, p: string)
  {
    exists k :: 0 <= k < |t| && Supplies(t, c, p, k)
  }

  /** Row `k` is the first row, in table order, that holds `p` in column
      `c` and has a manager. */
  ghost predicate IsFirstSupplier(t: seq<Row>, c: Column, p: string, k: int)
  {
    0 <= k < |t| && Supplies(t, c, p, k) && forall j :: 0 <= j < k ==> !Supplies(t, c, p, j)
  }

  /** The first manager, in table order, among the rows holding `p` in
      column `c`: `x.dropna().iloc[0]` over a group (app.py:117), and the
      filtered `zm_values.iloc[0]` (app.py:123-125). */
  function FirstManager(t: seq<Row>, c: Column, p: string): (r: Option<string>)
    ensures r.None? <==> !HasSupplier(t, c, p)
    ensures r.Some? ==> exists k :: IsFirstSupplier(t, c, p, k) && r == t[k].zonalManager
  {
    if t == [] then None
    else if Supplies(t, c, p, 0) then t[0].zonalManager
    else
      var r := FirstManager(t[1..], c, p);
      FirstManagerSkip(t, c, p, r);
      r
  }

  /** A row that supplies nothing can be skipped when searching. */
  lemma FirstManagerSkip(t: seq<Row>, c: Column, p: string, r: Option<string>)
    requires t != [] && !Supplies(t, c, p, 0)
    requires r.None? <==> !HasSupplier(t[1..], c, p)
    requires r.Some? ==> exists k :: IsFirstSupplier(t[1..], c, p, k) && r == t[1..][k].zonalManager
    ensures r.None? <==> !HasSupplier(t, c, p)
    ensures r.Some? ==> exists k :: IsFirstSupplier(t, c, p, k) && r == t[k].zonalManager
  {
    assert forall k :: 0 < k < |t| ==> (Supplies(t, c, p, k) <==> Supplies(t[1..], c, p, k - 1));
    if r.Some? {
      var k :| IsFirstSupplier(t[1..], c, p, k) && r == t[1..][k].zonalManager;
      assert IsFirstSupplier(t, c, p, k + 1);
    }
  }

  /** The first supplier of a value is unique. */
  lemma FirstSupplierUnique(t: seq<Row>, c: Column, p: string, k1: int, k2: int)
    requires IsFirstSupplier(t, c, p, k1) && IsFirstSupplier(t, c, p, k2)
    ensures k1 == k2
  {
  }

  /** Pass A (app.py:116-118), for one row: a null manager in a
      parent-territory group takes the group's first manager, when it has
      one. Rows whose parent territory is null belong to no group; pandas'
      group-wise transform yields null for them. */
  function FillFromGroup(t: seq<Row>, x: Row): Row
  {
    match x.parentTerritory
    case None => x.(zonalManager := None)
    case Some(p) => if x.zonalManager.Some? then x else x.(zonalManager := FirstManager(t, ParentTerritoryColumn, p))
  }

  /** Pass A over the whole table. */
  function PassA(t: seq<Row>): (r: seq<Row>)
    ensures |r| == |t|
    ensures forall i :: 0 <= i < |t| ==> r[i] == t[i].(zonalManager := r[i].zonalManager)
    ensures forall i :: 0 <= i < |t| && t[i].parentTerritory.Some? && t[i].zonalManager.Some? ==> r[i] == t[i]
    ensures forall i :: (0 <= i < |t| && t[i].parentTerritory.Some?
                         && !HasSupplier(t, ParentTerritoryColumn, t[i].parentTerritory.value)) ==> r[i] == t[i]
    ensures forall i, k :: 0 <= i < |t| && t[i].parentTerritory.Some? && t[i].zonalManager.None?
                           && IsFirstSupplier(t, ParentTerritoryColumn, t[i].parentTerritory.value, k) ==>
              r[i].zonalManager == t[k].zonalManager
    ensures forall i :: 0 <= i < |t| && t[i].parentTerritory.None? ==> r[i].zonalManager.None?
  {
    var r := seq(|t|, i requires 0 <= i < |t| => FillFromGroup(t, t[i]));
    forall i, k | 0 <= i < |t| && t[i].parentTerritory.Some? && t[i].zonalManager.None?
                  && IsFirstSupplier(t, ParentTerritoryColumn, t[i].parentTerritory.value, k)
      ensures r[i].zonalManager == t[k].zonalManager
    {
      var p := t[i].parentTerritory.value;
      var m := FirstManager(t, ParentTerritoryColumn, p);
      var k' :| IsFirstSupplier(t, ParentTerritoryColumn, p, k') && m == t[k'].zonalManager;
      FirstSupplierUnique(t, ParentTerritoryColumn, p, k, k');
    }
    r
  }

  /** Pass B (app.py:119-126), for one row still without a manager: the
      first manager among the rows whose customer territory is this row's
      parent territory, searched in `t`, the table as pass A left it. A null
      parent territory matches nothing: pandas' `==` is false on NaN. */
  function FillFromTerritory(t: seq<Row>, x: Row): Row
  {
    if x.zonalManager.Some? then x
    else match x.parentTerritory
      case None => x
      case Some(p) => x.(zonalManager := FirstManager(t, TerritoryColumn, p))
  }

  /** Pass B over the whole table. Every value it fills comes from a row
      that already had a manager before pass B, so fills never feed fills. */
  function PassB(t: seq<Row>): (r: seq<Row>)
    ensures |r| == |t|
    ensures forall i :: 0 <= i < |t| ==> r[i] == t[i].(zonalManager := r[i].zonalManager)
    ensures forall i :: 0 <= i < |t| && t[i].zonalManager.Some? ==> r[i] == t[i]
    ensures forall i :: 0 <= i < |t| && t[i].zonalManager.None? &&
                        (t[i].parentTerritory.None? || !HasSupplier(t, TerritoryColumn, t[i].parentTerritory.value)) ==>
              r[i] == t[i]
    ensures forall i, k :: 0 <= i < |t| && t[i].zonalManager.None? && t[i].parentTerritory.Some?
                           && IsFirstSupplier(t, TerritoryColumn, t[i].parentTerritory.value, k) ==>
              r[i].zonalManager == t[k].zonalManager
  {
    var r := seq(|t|, i requires 0 <= i < |t| => FillFromTerritory(t, t[i]));
    forall i, k | 0 <= i < |t| && t[i].zonalManager.None? && t[i].parentTerritory.Some?
                  && IsFirstSupplier(t, TerritoryColumn, t[i].parentTerritory.value, k)
      ensures r[i].zonalManager == t[k].zonalManager
    {
      var p := t[i].parentTerritory.value;
      var m := FirstManager(t, TerritoryColumn, p);
      var k' :| IsFirstSupplier(t, TerritoryColumn, p, k') && m == t[k'].zonalManager;
      FirstSupplierUnique(t, TerritoryColumn, p, k, k');
    }
    r
  }

  /** The parent territories of the rows without a manager, in table order
      (`result.loc[mask, 'parent_territory']`, app.py:122). */
  function MaskedParents(t: seq<Row>): (r: seq<Option<string>>)
    ensures forall p :: p in r <==> exists i :: 0 <= i < |t| && t[i].zonalManager.None? && t[i].parentTerritory == p
  {
    if t == [] then []
    else
      var rest := MaskedParents(t[1..]);
      assert forall i :: 0 < i < |t| ==> t[i] == t[1..][i - 1];
      (if t[0].zonalManager.None? then [t[0].parentTerritory] else []) + rest
  }

  /** `fill_zonal_managers` (app.py:114-127): pass A, then, when some row
      is still without a manager, the lookup table from each such row's
      parent territory to the first manager found under that territory, built
      completely before any row is assigned from it. */
  method FillZonalManagers(t: seq<Row>) returns (result: seq<Row>)
    ensures result == PassB(PassA(t))
  {
    result := PassA(t);
    if exists i :: 0 <= i < |result| && result[i].zonalManager.None? {
      var lookup := TerritoryManagerLookup(result);
      LookupFillsLikePassB(result, lookup);
      PassBRowwise(result);
      result := seq(|result|, i requires 0 <= i < |result| => FillFromLookup(result[i], lookup));
    }
  }

  /** The `zm_lookup` loop (app.py:121-126): for each distinct parent
      territory of a row without a manager, the first manager among the rows
      whose own territory is that parent, when there is one. */
  method TerritoryManagerLookup(t: seq<Row>) returns (lookup: map<string, string>)
    ensures forall p :: p in lookup ==> Some(lookup[p]) == FirstManager(t, TerritoryColumn, p)
    ensures forall i :: 0 <= i < |t| && t[i].zonalManager.None? && t[i].parentTerritory.Some?
                        && FirstManager(t, TerritoryColumn, t[i].parentTerritory.value).Some? ==>
              t[i].parentTerritory.value in lookup
  {
    var terrs := Unique(MaskedParents(t));
    lookup := map[];
    for n := 0 to |terrs|
      invariant forall p :: p in lookup ==> Some(lookup[p]) == FirstManager(t, TerritoryColumn, p)
      invariant forall p :: Some(p) in terrs[..n] && FirstManager(t, TerritoryColumn, p).Some? ==> p in lookup
    {
      if terrs[n].Some? {
        var terr := terrs[n].value;
        var zm := FirstManager(t, TerritoryColumn, terr);
        if zm.Some? {
          lookup := lookup[terr := zm.value];
        }
      }
    }
    assert terrs[..|terrs|] == terrs;
    LookupCoversMasked(t, terrs, lookup);
  }

  /** A row after `result.loc[mask, 'zonal_manager'] = ...map(lookup)`. */
  function FillFromLookup(x: Row, lookup: map<string, string>): (r: Row)
    ensures r == x.(zonalManager := r.zonalManager)
    ensures x.zonalManager.Some? || x.parentTerritory.None? ==> r == x
    ensures x.zonalManager.None? && x.parentTerritory.Some? ==>
              (r.zonalManager.Some? <==> x.parentTerritory.value in lookup)
    ensures r.zonalManager.Some? && x.zonalManager.None? ==> r.zonalManager == Some(lookup[x.parentTerritory.value])
  {
    if x.zonalManager.Some? then x
    else match x.parentTerritory
      case Some(p) => x.(zonalManager := if p in lookup then Some(lookup[p]) else None)
      case None => x
  }

  /** The lookup built from the distinct masked parents has an entry for
      the parent of every row without a manager, whenever that parent
      territory has a manager somewhere. */
  lemma LookupCoversMasked(t: seq<Row>, terrs: seq<Option<string>>, lookup: map<string, string>)
    requires forall x :: x in terrs <==> x in MaskedParents(t)
    requires forall p :: Some(p) in terrs && FirstManager(t, TerritoryColumn, p).Some? ==> p in lookup
    ensures forall i :: 0 <= i < |t| && t[i].zonalManager.None? && t[i].parentTerritory.Some?
                        && FirstManager(t, TerritoryColumn, t[i].parentTerritory.value).Some? ==>
              t[i].parentTerritory.value in lookup
  {
    forall i | 0 <= i < |t| && t[i].zonalManager.None? && t[i].parentTerritory.Some?
               && FirstManager(t, TerritoryColumn, t[i].parentTerritory.value).Some?
      ensures t[i].parentTerritory.value in lookup
    {
      assert t[i].parentTerritory in MaskedParents(t);
    }
  }

  /** Every entry of `lookup` is the first manager of rows whose territory is its key. */
  ghost predicate LookupAgrees(t: seq<Row>, lookup: map<string, string>)
  {
    forall p :: p in lookup ==> Some(lookup[p]) == FirstManager(t, TerritoryColumn, p)
  }

  /** `lookup` has an entry for the parent of every row without a manager
      whose parent territory has a manager somewhere. */
  ghost predicate LookupCovers(t: seq<Row>, lookup: map<string, string>)
  {
    forall i :: 0 <= i < |t| && t[i].zonalManager.None? && t[i].parentTerritory.Some?
                && FirstManager(t, TerritoryColumn, t[i].parentTerritory.value).Some? ==>
      t[i].parentTerritory.value in lookup
  }

  /** Filling from a lookup that agrees with the first territory manager
      wherever it is consulted is pass B, row by row. */
  lemma LookupFillsLikePassB(t: seq<Row>, lookup: map<string, string>)
    requires LookupAgrees(t, lookup) && LookupCovers(t, lookup)
    ensures seq(|t|, i requires 0 <= i < |t| => FillFromLookup(t[i], lookup))
            == seq(|t|, i requires 0 <= i < |t| => FillFromTerritory(t, t[i]))
  {
    var filled := seq(|t|, i requires 0 <= i < |t| => FillFromLookup(t[i], lookup));
    var passB := seq(|t|, i requires 0 <= i < |t| => FillFromTerritory(t, t[i]));
    forall i | 0 <= i < |t| ensures filled[i] == passB[i] {
      LookupRowAgrees(t, lookup, i);
    }
    assert filled == passB;
  }

  lemma LookupRowAgrees(t: seq<Row>, lookup: map<string, string>, i: int)
    requires 0 <= i < |t| && LookupAgrees(t, lookup) && LookupCovers(t, lookup)
    ensures FillFromLookup(t[i], lookup) == FillFromTerritory(t, t[i])
  {
  }

  lemma PassBRowwise(t: seq<Row>)
    ensures PassB(t) == seq(|t|, i requires 0 <= i < |t| => FillFromTerritory(t, t[i]))
  {
  }

  /** Pass B never chains: a row whose only candidate source is itself
      filled by pass B stays without a manager. Here row B takes C's manager
      because C's territory is B's parent, while row A, whose parent is B's
      territory, stays null because B had no manager before pass B. */
  lemma PassBDoesNotChain()
    ensures var t := [Row(None, None, None, Some("P"), "A", Some("X")),
                      Row(None, None, None, Some("Q"), "B", Some("P")),
                      Row(Some("e"), None, Some("m"), Some("R"), "C", Some("Q"))];
            PassB(t)[1].zonalManager == Some("m") && PassB(t)[0].zonalManager.None?
  {
    var t := [Row(None, None, None, Some("P"), "A", Some("X")),
              Row(None, None, None, Some("Q"), "B", Some("P")),
              Row(Some("e"), None, Some("m"), Some("R"), "C", Some("Q"))];
    assert IsFirstSupplier(t, TerritoryColumn, "Q", 2);
    assert !Supplies(t, TerritoryColumn, "P", 0) && !Supplies(t, TerritoryColumn, "P", 1) && !Supplies(t, TerritoryColumn, "P", 2);
  }

  /** Some row of `t` has manager `v`. */
  ghost predicate ManagerOfSomeRow(t: seq<Row>, v: Option<string>)
  {
    exists j :: 0 <= j < |t| && t[j].zonalManager == v
  }

  /** Every manager either pass leaves in a row was already some row's manager. */
  lemma PassesOnlyCopyManagers(t: seq<Row>)
    ensures forall i :: 0 <= i < |t| && PassA(t)[i].zonalManager.Some? ==> ManagerOfSomeRow(t, PassA(t)[i].zonalManager)
    ensures forall i :: 0 <= i < |t| && PassB(t)[i].zonalManager.Some? ==> ManagerOfSomeRow(t, PassB(t)[i].zonalManager)
  {
    forall i | 0 <= i < |t| && PassA(t)[i].zonalManager.Some? ensures ManagerOfSomeRow(t, PassA(t)[i].zonalManager) {
      PassACopies(t, i);
    }
    forall i | 0 <= i < |t| && PassB(t)[i].zonalManager.Some? ensures ManagerOfSomeRow(t, PassB(t)[i].zonalManager) {
      PassBCopies(t, i);
    }
  }

  lemma PassACopies(t: seq<Row>, i: int)
    requires 0 <= i < |t| && PassA(t)[i].zonalManager.Some?
    ensures ManagerOfSomeRow(t, PassA(t)[i].zonalManager)
  {
    if t[i].zonalManager.None? {
      var p := t[i].parentTerritory.value;
      assert HasSupplier(t, ParentTerritoryColumn, p);
      var k :| IsFirstSupplier(t, ParentTerritoryColumn, p, k) && FirstManager(t, ParentTerritoryColumn, p) == t[k].zonalManager;
    }
  }

  lemma PassBCopies(t: seq<Row>, i: int)
    requires 0 <= i < |t| && PassB(t)[i].zonalManager.Some?
    ensures ManagerOfSomeRow(t, PassB(t)[i].zonalManager)
  {
    if t[i].zonalManager.None? {
      var p := t[i].parentTerritory.value;
      assert HasSupplier(t, TerritoryColumn, p);
      var k :| IsFirstSupplier(t, TerritoryColumn, p, k) && FirstManager(t, TerritoryColumn, p) == t[k].zonalManager;
    }
  }


  /** A row whose parent-territory group has a manager somewhere ends both
      passes with a manager. */
  lemma GroupManagerSurvivesFill(t: seq<Row>, i: int)
    requires 0 <= i < |t| && t[i].parentTerritory.Some?
    requires HasSupplier(t, ParentTerritoryColumn, t[i].parentTerritory.value)
    ensures PassB(PassA(t))[i].zonalManager.Some?
  {
    var a := PassA(t);
    if t[i].zonalManager.None? {
      var p := t[i].parentTerritory.value;
      var m := FirstManager(t, ParentTerritoryColumn, p);
      var k :| IsFirstSupplier(t, ParentTerritoryColumn, p, k) && m == t[k].zonalManager;
      assert a[i].zonalManager == t[k].zonalManager;
    }
    assert a[i].zonalManager.Some?;
  }

  // ---------------------------------------------------------------------
  // Row order of the joined table, and which manager pass A picks
  // ---------------------------------------------------------------------

  /** The joined table keeps the customer table's order: joining two
      customer tables one after the other gives the rows of the first, then
      those of the second. */
  lemma JoinedAppend(mgrs: seq<ManagerRow>, a: seq<CustomerRow>, b: seq<CustomerRow>)
    ensures Joined(mgrs, a + b) == Joined(mgrs, a) + Joined(mgrs, b)
  {
    LeftJoinAppend(a, b, mgrs, ParentKey, ManagerKey, WithManager, WithoutManager);
  }

  /** The rows of one customer row: one per manager-table row of its parent
      territory, in manager-table order, or the row with no manager. */
  lemma JoinedOne(mgrs: seq<ManagerRow>, c: CustomerRow)
    ensures var m := Matching(c.parentTerritory, mgrs, ManagerKey);
            Joined(mgrs, [c]) == if m == [] then [WithoutManager(c)] else Pairs(c, m, WithManager)
  {
    LeftJoinOne(c, mgrs, ParentKey, ManagerKey, WithManager, WithoutManager);
  }

  /** The zonal manager of the first manager-table row, in table order,
      that is listed under parent territory `p` and has a manager. */
  function FirstListed(mgrs: seq<ManagerRow>, p: string): (r: Option<string>)
    ensures r.None? <==> forall m :: m in mgrs && m.parentTerritory == Some(p) ==> m.zonalManager.None?
    ensures r.Some? ==> exists k :: IsFirstListed(mgrs, p, k) && r == mgrs[k].zonalManager
  {
    if mgrs == [] then None
    else if Lists(mgrs[0], p) then
      assert IsFirstListed(mgrs, p, 0);
      mgrs[0].zonalManager
    else
      var r := FirstListed(mgrs[1..], p);
      FirstListedSkip(mgrs, p, r);
      r
  }

  /** Manager-table row `m` is listed under `p` and has a manager. */
  predicate Lists(m: ManagerRow, p: string)
  {
    m.parentTerritory == Some(p) && m.zonalManager.Some?
  }

  /** Row `k` is the first manager-table row, in table order, listed under
      `p` with a manager. */
  ghost predicate IsFirstListed(mgrs: seq<ManagerRow>, p: string, k: int)
  {
    0 <= k < |mgrs| && Lists(mgrs[k], p) && forall j :: 0 <= j < k ==> !Lists(mgrs[j], p)
  }

  /** A row that lists no manager under `p` can be skipped when searching. */
  lemma FirstListedSkip(mgrs: seq<ManagerRow>, p: string, r: Option<string>)
    requires mgrs != [] && !Lists(mgrs[0], p)
    requires r.None? <==> forall m :: m in mgrs[1..] && m.parentTerritory == Some(p) ==> m.zonalManager.None?
    requires r.Some? ==> exists k :: IsFirstListed(mgrs[1..], p, k) && r == mgrs[1..][k].zonalManager
    ensures r.None? <==> forall m :: m in mgrs && m.parentTerritory == Some(p) ==> m.zonalManager.None?
    ensures r.Some? ==> exists k :: IsFirstListed(mgrs, p, k) && r == mgrs[k].zonalManager
  {
    assert forall m :: m in mgrs ==> m == mgrs[0] || m in mgrs[1..];
    if r.Some? {
      var k :| IsFirstListed(mgrs[1..], p, k) && r == mgrs[1..][k].zonalManager;
      assert IsFirstListed(mgrs, p, k + 1);
    }
  }

  /** Searching the first `a` rows, then the rest: the first manager of a
      group in `a + b` is the one in `a`, when `a` has one. */
  lemma {:induction false} FirstManagerAppend(a: seq<Row>, b: seq<Row>, c: Column, p: string)
    ensures FirstManager(a + b, c, p)
            == if FirstManager(a, c, p).Some? then FirstManager(a, c, p) else FirstManager(b, c, p)
  {
    if a == [] {
      assert a + b == b;
    } else {
      assert (a + b)[0] == a[0] && (a + b)[1..] == a[1..] + b;
      assert Supplies(a + b, c, p, 0) == Supplies(a, c, p, 0);
      FirstManagerAppend(a[1..], b, c, p);
    }
  }

  /** A customer row's rows with the managers `ms`, all listed under the
      row's parent territory, find the first of `ms` that has a manager. */
  lemma {:induction false} PairsFirstManager(x: CustomerRow, ms: seq<ManagerRow>, p: string)
    requires x.parentTerritory == Some(p)
    requires forall m :: m in ms ==> m.parentTerritory == Some(p)
    ensures FirstManager(Pairs(x, ms, WithManager), ParentTerritoryColumn, p) == FirstListed(ms, p)
  {
    if ms != [] {
      var r := Pairs(x, ms, WithManager);
      assert r[0] == WithManager(x, ms[0]);
      assert r[1..] == Pairs(x, ms[1..], WithManager);
      if !Supplies(r, ParentTerritoryColumn, p, 0) {
        assert forall m :: m in ms[1..] ==> m in ms;
        PairsFirstManager(x, ms[1..], p);
      }
    }
  }

  /** Keeping only the rows listed under `p` does not change which is first. */
  lemma {:induction false} FirstListedMatching(mgrs: seq<ManagerRow>, p: string)
    ensures FirstListed(Matching(Some(p), mgrs, ManagerKey), p) == FirstListed(mgrs, p)
  {
    if mgrs != [] {
      var rest := Matching(Some(p), mgrs[1..], ManagerKey);
      FirstListedMatching(mgrs[1..], p);
      if ManagerKey(mgrs[0]) == Some(p) {
        var m := [mgrs[0]] + rest;
        assert m[0] == mgrs[0] && m[1..] == rest;
      } else {
        assert Matching(Some(p), mgrs, ManagerKey) == rest;
      }
    }
  }

  /** The first manager in the rows of one customer row of parent
      territory `p` is the first listed under `p`. */
  lemma BlockManager(mgrs: seq<ManagerRow>, x: CustomerRow, p: string)
    requires x.parentTerritory == Some(p)
    ensures FirstManager(Joined(mgrs, [x]), ParentTerritoryColumn, p) == FirstListed(mgrs, p)
  {
    JoinedOne(mgrs, x);
    var m := Matching(Some(p), mgrs, ManagerKey);
    if m == [] {
      assert Joined(mgrs, [x]) == [WithoutManager(x)];
      assert !Supplies(Joined(mgrs, [x]), ParentTerritoryColumn, p, 0);
    } else {
      PairsFirstManager(x, m, p);
      FirstListedMatching(mgrs, p);
    }
  }

  /** Without a customer row of parent territory `p`, the joined table has
      no manager for `p`. */
  lemma NoGroupNoManager(mgrs: seq<ManagerRow>, custs: seq<CustomerRow>, p: string)
    requires forall x :: x in custs ==> x.parentTerritory != Some(p)
    ensures FirstManager(Joined(mgrs, custs), ParentTerritoryColumn, p).None?
  {
    var t := Joined(mgrs, custs);
    forall k | 0 <= k < |t| ensures !Supplies(t, ParentTerritoryColumn, p, k) {
      assert t[k] in t && FromCustomer(t[k], custs);
    }
  }

  /** The first manager of group `p` in the joined table is the first
      manager-table row listed under `p` that has one, whichever customer
      rows the group holds. */
  lemma {:induction false} JoinedGroupManager(mgrs: seq<ManagerRow>, custs: seq<CustomerRow>, p: string, i: nat)
    requires i < |custs| && custs[i].parentTerritory == Some(p)
    ensures FirstManager(Joined(mgrs, custs), ParentTerritoryColumn, p) == FirstListed(mgrs, p)
  {
    var x, rest := custs[0], custs[1..];
    assert custs == [x] + rest;
    JoinedAppend(mgrs, [x], rest);
    FirstManagerAppend(Joined(mgrs, [x]), Joined(mgrs, rest), ParentTerritoryColumn, p);
    if x.parentTerritory == Some(p) {
      BlockManager(mgrs, x, p);
      if FirstListed(mgrs, p).None? {
        if j :| 0 <= j < |rest| && rest[j].parentTerritory == Some(p) {
          JoinedGroupManager(mgrs, rest, p, j);
        } else {
          NoGroupNoManager(mgrs, rest, p);
        }
      }
    } else {
      NoGroupNoManager(mgrs, [x], p);
      JoinedGroupManager(mgrs, rest, p, i - 1);
    }
  }

  /** Pass A on the joined table: a row with a parent territory and no
      manager takes the manager of the first manager-table row listed under
      that parent territory with one (null when there is none). */
  lemma NullManagerTakesFirstListed(mgrs: seq<ManagerRow>, custs: seq<CustomerRow>, i: nat)
    requires i < |Joined(mgrs, custs)|
    requires Joined(mgrs, custs)[i].parentTerritory.Some? && Joined(mgrs, custs)[i].zonalManager.None?
    ensures PassA(Joined(mgrs, custs))[i].zonalManager == FirstListed(mgrs, Joined(mgrs, custs)[i].parentTerritory.value)
  {
    var t := Joined(mgrs, custs);
    var j := JoinedRowCustomer(mgrs, custs, i);
    JoinedGroupManager(mgrs, custs, t[i].parentTerritory.value, j);
    PassARow(t, i);
  }

  /** The customer row a joined row comes from. */
  lemma JoinedRowCustomer(mgrs: seq<ManagerRow>, custs: seq<CustomerRow>, i: nat) returns (j: nat)
    requires i < |Joined(mgrs, custs)|
    ensures j < |custs| && custs[j].parentTerritory == Joined(mgrs, custs)[i].parentTerritory
  {
    var t := Joined(mgrs, custs);
    assert t[i] in t && FromCustomer(t[i], custs);
    var c :| c in custs && c.parentTerritory == t[i].parentTerritory;
    j :| 0 <= j < |custs| && custs[j] == c;
  }

  lemma PassARow(t: seq<Row>, i: nat)
    requires i < |t|
    ensures PassA(t)[i] == FillFromGroup(t, t[i])
  {
  }

  // ---------------------------------------------------------------------
  // The customer to manager map (app.py:129-132)
  // ---------------------------------------------------------------------

  /** No later row belongs to the same customer. */
  ghost predicate IsLastOfName(rows: seq<Row>, i: int)
    requires 0 <= i < |rows|
  {
    forall j :: i < j < |rows| ==> rows[j].name != rows[i].name
  }

  /** `set_index('customer')['zonal_manager'].to_dict()`: one entry per
      customer; when a customer has several rows the last one wins. */
  function ToMap(rows: seq<Row>): (m: map<string, Option<string>>)
    ensures forall n :: n in m <==> HasName(rows, n)
    ensures forall i :: 0 <= i < |rows| && IsLastOfName(rows, i) ==> rows[i].name in m && m[rows[i].name] == rows[i].zonalManager
  {
    if rows == [] then map[]
    else
      var init, last := rows[..|rows| - 1], rows[|rows| - 1];
      var m := ToMap(init);
      var m' := m[last.name := last.zonalManager];
      ToMapSnocKeys(init, last, m, rows, m');
      ToMapSnocValues(init, last, m, rows, m');
      m'
  }

  /** Some row belongs to customer `n`. */
  ghost predicate HasName(rows: seq<Row>, n: string)
  {
    exists i :: 0 <= i < |rows| && rows[i].name == n
  }

  /** Adding a row to the end of the table adds its customer's entry ... */
  lemma ToMapSnocKeys(init: seq<Row>, last: Row, m: map<string, Option<string>>, rows: seq<Row>, m': map<string, Option<string>>)
    requires forall n :: n in m <==> HasName(init, n)
    requires rows != [] && init == rows[..|rows| - 1] && last == rows[|rows| - 1]
    requires m' == m[last.name := last.zonalManager]
    ensures forall n :: n in m' <==> HasName(rows, n)
  {
    forall n ensures n in m' <==> HasName(rows, n) {
      if n in m && n != last.name {
        var i :| 0 <= i < |init| && init[i].name == n;
        assert rows[i] == init[i];
      }
      if HasName(rows, n) && n != last.name {
        var i :| 0 <= i < |rows| && rows[i].name == n;
        assert i < |init| && init[i] == rows[i];
      }
    }
  }

  /** ... and overwrites the value any earlier row of that customer left. */
  lemma ToMapSnocValues(init: seq<Row>, last: Row, m: map<string, Option<string>>, rows: seq<Row>, m': map<string, Option<string>>)
    requires forall i :: 0 <= i < |init| && IsLastOfName(init, i) ==> init[i].name in m && m[init[i].name] == init[i].zonalManager
    requires rows != [] && init == rows[..|rows| - 1] && last == rows[|rows| - 1]
    requires m' == m[last.name := last.zonalManager]
    ensures forall i :: 0 <= i < |rows| && IsLastOfName(rows, i) ==> rows[i].name in m' && m'[rows[i].name] == rows[i].zonalManager
  {
    forall i | 0 <= i < |rows| && IsLastOfName(rows, i)
      ensures rows[i].name in m' && m'[rows[i].name] == rows[i].zonalManager
    {
      if i < |rows| - 1 {
        assert rows[i] == init[i];
        assert IsLastOfName(init, i) by {
          forall j | i < j < |init| ensures init[j].name != init[i].name {
            assert rows[j] == init[j];
          }
        }
      }
    }
  }

  /** Every row of a customer is followed, possibly by itself, by that
      customer's last row. */
  lemma {:induction false} LastOfNameExists(rows: seq<Row>, i: int)
    requires 0 <= i < |rows|
    ensures exists j :: i <= j < |rows| && rows[j].name == rows[i].name && IsLastOfName(rows, j)
    decreases |rows| - i
  {
    if !IsLastOfName(rows, i) {
      var j :| i < j < |rows| && rows[j].name == rows[i].name;
      LastOfNameExists(rows, j);
    }
  }

  /** Each customer's entry is the manager of its last row. */
  lemma ToMapLastRow(rows: seq<Row>, n: string) returns (i: nat)
    requires n in ToMap(rows)
    ensures i < |rows| && rows[i].name == n && IsLastOfName(rows, i) && ToMap(rows)[n] == rows[i].zonalManager
  {
    var k :| 0 <= k < |rows| && rows[k].name == n;
    LastOfNameExists(rows, k);
    i :| i < |rows| && rows[i].name == n && IsLastOfName(rows, i);
  }

  // ---------------------------------------------------------------------
  // The whole build
  // ---------------------------------------------------------------------

  /** The joined table of app.py:111-112. */
  function JoinedTable(sps: seq<ServicePerson>, emps: seq<Employee>, cs: seq<Customer>, ts: seq<Territory>): seq<Row>
  {
    Joined(ManagerTable(emps, sps), CustomerTable(cs, ts))
  }

  /** Map `m` names a manager (not null) for customer `n`. */
  predicate HasManager(m: map<string, Option<string>>, n: string)
  {
    n in m && m[n].Some?
  }

  /** The map built from a joined table: both fill passes, then one entry
      per customer (app.py:114-132). */
  function FilledMap(t: seq<Row>): map<string, Option<string>>
  {
    ToMap(PassB(PassA(t)))
  }

  /** The customer to zonal-manager map the build produces from the four collections. */
  function ZonalManagerMap(sps: seq<ServicePerson>, emps: seq<Employee>, cs: seq<Customer>, ts: seq<Territory>)
    : map<string, Option<string>>
  {
    FilledMap(JoinedTable(sps, emps, cs, ts))
  }

  /** `load_and_preprocess_data` (app.py:26-132): no map at all when any of
      the four requests is not answered with status 200; otherwise the map. */
  method LoadAndPreprocess(spReply: Fetched<ServicePerson>, empReply: Fetched<Employee>,
                           custReply: Fetched<Customer>, terrReply: Fetched<Territory>)
    returns (m: Option<map<string, Option<string>>>)
    ensures m.None? <==> (spReply.status != 200 || empReply.status != 200 ||
                          custReply.status != 200 || terrReply.status != 200)
    ensures m.Some? ==> m.value == ZonalManagerMap(spReply.rows, empReply.rows, custReply.rows, terrReply.rows)
  {
    if spReply.status != 200 {
      return None;
    }
    if empReply.status != 200 {
      return None;
    }
    var managers := EmployeeManagers(empReply.rows, spReply.rows);
    managers := managers + ManualRows;
    ghost var withManual := managers;
    managers := ReplaceManager(managers, "Anuraj T. R", "Anuraj T");
    managers := ReplaceManager(managers, "Subrahmanyam Somagani", "S.Somagani");
    managers := ReplaceManager(managers, "Vivek Singh Chauhan", "Vivek Chauhan");
    managers := ReplaceManager(managers, "Tousif Rauf Baig Mirza", "Tausif Mirza");
    ReplacementsAreCorrections(withManual);
    if custReply.status != 200 {
      return None;
    }
    if terrReply.status != 200 {
      return None;
    }
    var customers := CustomerTable(custReply.rows, terrReply.rows);
    var joined := Joined(managers, customers);
    var filled := FillZonalManagers(joined);
    m := Some(ToMap(filled));
  }

  /** Both passes keep every row's customer. */
  lemma FillKeepsNames(t: seq<Row>)
    ensures forall n :: HasName(t, n) ==> n in FilledMap(t)
  {
    var f := PassB(PassA(t));
    forall n | HasName(t, n) ensures HasName(f, n) {
      var i :| 0 <= i < |t| && t[i].name == n;
      assert f[i].name == n;
    }
  }

  /** Every manager the map hands out is the manager of some row of the
      table both passes started from. */
  lemma FillOnlyCopiesManagers(t: seq<Row>)
    ensures forall n :: HasManager(FilledMap(t), n) ==> ManagerOfSomeRow(t, FilledMap(t)[n])
  {
    forall n | HasManager(FilledMap(t), n) ensures ManagerOfSomeRow(t, FilledMap(t)[n]) {
      MapEntryCopied(t, n);
    }
  }

  lemma MapEntryCopied(t: seq<Row>, n: string)
    requires HasManager(FilledMap(t), n)
    ensures ManagerOfSomeRow(t, FilledMap(t)[n])
  {
    var a := PassA(t);
    var f := PassB(a);
    var i := ToMapLastRow(f, n);
    PassBCopies(a, i);
    var i1 :| 0 <= i1 < |a| && a[i1].zonalManager == f[i].zonalManager;
    PassACopies(t, i1);
  }

  /** Customer `n` has rows in `t`, all in parent territory `p`, and some
      row of that parent territory has a manager. */
  ghost predicate GroupSupplied(t: seq<Row>, n: string, p: string)
  {
    && HasName(t, n) && HasSupplier(t, ParentTerritoryColumn, p)
    && forall i :: 0 <= i < |t| && t[i].name == n ==> t[i].parentTerritory == Some(p)
  }

  /** A customer all of whose rows sit under parent territory `p`, where
      some row has a manager, gets a manager in the map. */
  lemma GroupManagerReachesMap(t: seq<Row>, n: string, p: string)
    requires GroupSupplied(t, n, p)
    ensures HasManager(FilledMap(t), n)
  {
    var f := PassB(PassA(t));
    FillKeepsNames(t);
    var i := ToMapLastRow(f, n);
    assert t[i].name == n;
    GroupManagerSurvivesFill(t, i);
  }

  /** Every customer appears in the customer table. */
  lemma CustomerInTable(cs: seq<Customer>, ts: seq<Territory>, c: Customer)
    requires c in cs
    ensures exists x :: x in CustomerTable(cs, ts) && x.name == c.name
  {
    if t :| t in ts && Some(t.territory) == c.territory {
      assert CustomerRow(c.name, c.territory, t.parentTerritory) in CustomerTable(cs, ts);
    } else {
      assert CustomerRow(c.name, c.territory, None) in CustomerTable(cs, ts);
    }
  }

  /** Every customer row appears in the joined table. */
  lemma CustomerInJoined(mgrs: seq<ManagerRow>, custs: seq<CustomerRow>, x: CustomerRow)
    requires x in custs
    ensures HasName(Joined(mgrs, custs), x.name)
  {
    var j := Joined(mgrs, custs);
    var y;
    if m :| m in mgrs && m.parentTerritory == x.parentTerritory {
      y := Row(Some(m.employee), m.employeeName, m.zonalManager, x.parentTerritory, x.name, x.territory);
    } else {
      y := Row(None, None, None, x.parentTerritory, x.name, x.territory);
    }
    var i :| 0 <= i < |j| && j[i] == y;
  }

  /** Every customer of the Customer collection has an entry in the map. */
  lemma EveryCustomerHasEntry(sps: seq<ServicePerson>, emps: seq<Employee>, cs: seq<Customer>, ts: seq<Territory>)
    ensures forall c :: c in cs ==> c.name in ZonalManagerMap(sps, emps, cs, ts)
  {
    var ct := CustomerTable(cs, ts);
    var j := Joined(ManagerTable(emps, sps), ct);
    FillKeepsNames(j);
    forall c | c in cs ensures HasName(j, c.name) {
      CustomerInTable(cs, ts, c);
      var x :| x in ct && x.name == c.name;
      CustomerInJoined(ManagerTable(emps, sps), ct, x);
    }
  }

  /** Every manager the map names is the (corrected) name of a row of the
      manager table; in particular no recorded spelling that a correction
      replaces, such as "Anuraj T. R", is ever handed out. */
  lemma MapNamesOnlyTableManagers(sps: seq<ServicePerson>, emps: seq<Employee>, cs: seq<Customer>, ts: seq<Territory>)
    ensures forall n :: HasManager(ZonalManagerMap(sps, emps, cs, ts), n) ==>
              exists m :: m in ManagerTable(emps, sps) && m.zonalManager == ZonalManagerMap(sps, emps, cs, ts)[n]
    ensures forall n, k :: n in ZonalManagerMap(sps, emps, cs, ts) && 0 <= k < |NameCorrections| ==>
              ZonalManagerMap(sps, emps, cs, ts)[n] != Some(NameCorrections[k].0)
  {
    var zm := ZonalManagerMap(sps, emps, cs, ts);
    forall n | HasManager(zm, n) ensures exists m :: m in ManagerTable(emps, sps) && m.zonalManager == zm[n] {
      var m := MapEntryInTable(sps, emps, cs, ts, n);
    }
    forall n, k | n in zm && 0 <= k < |NameCorrections| ensures zm[n] != Some(NameCorrections[k].0) {
      if zm[n].Some? {
        var m := MapEntryInTable(sps, emps, cs, ts, n);
        ManualRowCorrected(emps, sps);
      }
    }
  }

  /** The manager-table row a map entry's manager comes from. */
  lemma MapEntryInTable(sps: seq<ServicePerson>, emps: seq<Employee>, cs: seq<Customer>, ts: seq<Territory>, n: string)
    returns (m: ManagerRow)
    requires HasManager(ZonalManagerMap(sps, emps, cs, ts), n)
    ensures m in ManagerTable(emps, sps) && m.zonalManager == ZonalManagerMap(sps, emps, cs, ts)[n]
  {
    m := FilledEntryListed(JoinedTable(sps, emps, cs, ts), ManagerTable(emps, sps), n);
  }

  /** A manager the map hands out for a table whose every manager is
      listed in `mgrs` is itself listed there. */
  lemma FilledEntryListed(t: seq<Row>, mgrs: seq<ManagerRow>, n: string) returns (m: ManagerRow)
    requires forall x :: x in t ==> ManagerListed(x, mgrs)
    requires HasManager(FilledMap(t), n)
    ensures m in mgrs && m.zonalManager == FilledMap(t)[n]
  {
    MapEntryCopied(t, n);
    var i :| 0 <= i < |t| && t[i].zonalManager == FilledMap(t)[n];
    assert t[i] in t && ManagerListed(t[i], mgrs);
    m :| m in mgrs && m.parentTerritory == t[i].parentTerritory && m.zonalManager == t[i].zonalManager;
  }

  /** Customer names are the Customer collection's record names, so distinct. */
  ghost predicate UniqueCustomerNames(cs: seq<Customer>)
  {
    forall i, j :: 0 <= i < j < |cs| ==> cs[i].name != cs[j].name
  }

  /** Territory names are the Territory collection's record names, so distinct. */
  ghost predicate UniqueTerritoryNames(ts: seq<Territory>)
  {
    forall i, j :: 0 <= i < j < |ts| ==> ts[i].territory != ts[j].territory
  }

  /** With distinct customer and territory names, each customer's rows of
      the customer table carry the parent of the customer's own territory. */
  lemma CustomerRowParent(cs: seq<Customer>, ts: seq<Territory>, c: Customer, t0: Territory, x: CustomerRow)
    requires UniqueCustomerNames(cs) && UniqueTerritoryNames(ts)
    requires c in cs && t0 in ts && c.territory == Some(t0.territory)
    requires x in CustomerTable(cs, ts) && x.name == c.name
    ensures x.parentTerritory == t0.parentTerritory
  {
    var c' :| c' in cs && x.name == c'.name && x.territory == c'.territory &&
              ((exists t :: t in ts && Some(t.territory) == c'.territory && x.parentTerritory == t.parentTerritory)
               || ((forall t :: t in ts ==> Some(t.territory) != c'.territory) && x.parentTerritory.None?));
    assert c' == c by {
      var a :| 0 <= a < |cs| && cs[a] == c;
      var b :| 0 <= b < |cs| && cs[b] == c';
      assert !(a < b) && !(b < a);
    }
    var t :| t in ts && Some(t.territory) == c.territory && x.parentTerritory == t.parentTerritory;
    assert t == t0 by {
      var a :| 0 <= a < |ts| && ts[a] == t;
      var b :| 0 <= b < |ts| && ts[b] == t0;
      assert !(a < b) && !(b < a);
    }
  }

  /** Every row of `custs` for customer `n` has parent territory `p`. */
  ghost predicate ParentOfName(custs: seq<CustomerRow>, n: string, p: Option<string>)
  {
    forall x :: x in custs && x.name == n ==> x.parentTerritory == p
  }

  /** A customer all of whose customer-table rows sit under parent
      territory `p` keeps that parent in every joined row. */
  lemma JoinedKeepsParent(mgrs: seq<ManagerRow>, custs: seq<CustomerRow>, n: string, p: Option<string>)
    requires ParentOfName(custs, n, p)
    ensures forall i :: 0 <= i < |Joined(mgrs, custs)| && Joined(mgrs, custs)[i].name == n ==>
              Joined(mgrs, custs)[i].parentTerritory == p
  {
    var j := Joined(mgrs, custs);
    forall i | 0 <= i < |j| && j[i].name == n ensures j[i].parentTerritory == p {
      assert j[i] in j && FromCustomer(j[i], custs);
    }
  }

  /** A manager listed under a customer's parent territory supplies that
      parent-territory group of the joined table. */
  lemma JoinedSupplier(mgrs: seq<ManagerRow>, custs: seq<CustomerRow>, x: CustomerRow, m: ManagerRow)
    requires x in custs && m in mgrs && m.parentTerritory == x.parentTerritory
    requires x.parentTerritory.Some? && m.zonalManager.Some?
    ensures HasSupplier(Joined(mgrs, custs), ParentTerritoryColumn, x.parentTerritory.value)
  {
    var j := Joined(mgrs, custs);
    var row := Row(Some(m.employee), m.employeeName, m.zonalManager, x.parentTerritory, x.name, x.territory);
    var k := PositionOf(j, row);
    assert Supplies(j, ParentTerritoryColumn, x.parentTerritory.value, k);
  }

  /** The fallback propagation of the build: a customer whose territory has
      a parent territory under which some manager is listed always gets a
      manager in the map. */
  lemma CustomerGetsGroupManager(sps: seq<ServicePerson>, emps: seq<Employee>, cs: seq<Customer>, ts: seq<Territory>,
                                 c: Customer, t0: Territory, m0: ManagerRow)
    requires UniqueCustomerNames(cs) && UniqueTerritoryNames(ts)
    requires c in cs && t0 in ts && c.territory == Some(t0.territory) && t0.parentTerritory.Some?
    requires m0 in ManagerTable(emps, sps) && m0.parentTerritory == t0.parentTerritory && m0.zonalManager.Some?
    ensures HasManager(ZonalManagerMap(sps, emps, cs, ts), c.name)
  {
    CustomerGroupInJoined(sps, emps, cs, ts, c, t0, m0);
    var j := JoinedTable(sps, emps, cs, ts);
    GroupManagerReachesMap(j, c.name, t0.parentTerritory.value);
  }

  /** In the joined table, such a customer has a row, every row of it
      carries its territory's parent, and that parent group has a manager. */
  lemma CustomerGroupInJoined(sps: seq<ServicePerson>, emps: seq<Employee>, cs: seq<Customer>, ts: seq<Territory>,
                              c: Customer, t0: Territory, m0: ManagerRow)
    requires UniqueCustomerNames(cs) && UniqueTerritoryNames(ts)
    requires c in cs && t0 in ts && c.territory == Some(t0.territory) && t0.parentTerritory.Some?
    requires m0 in ManagerTable(emps, sps) && m0.parentTerritory == t0.parentTerritory && m0.zonalManager.Some?
    ensures GroupSupplied(JoinedTable(sps, emps, cs, ts), c.name, t0.parentTerritory.value)
  {
    var mt := ManagerTable(emps, sps);
    var ct := CustomerTable(cs, ts);
    var cr := CustomerRow(c.name, c.territory, t0.parentTerritory);
    CustomerTableParents(cs, ts, c, t0);
    CustomerInJoined(mt, ct, cr);
    JoinedSupplier(mt, ct, cr, m0);
    JoinedKeepsParent(mt, ct, c.name, t0.parentTerritory);
  }

  /** With unique names, every customer-table row of a customer carries the
      parent of that customer's territory, and one such row exists. */
  lemma CustomerTableParents(cs: seq<Customer>, ts: seq<Territory>, c: Customer, t0: Territory)
    requires UniqueCustomerNames(cs) && UniqueTerritoryNames(ts)
    requires c in cs && t0 in ts && c.territory == Some(t0.territory)
    ensures CustomerRow(c.name, c.territory, t0.parentTerritory) in CustomerTable(cs, ts)
    ensures ParentOfName(CustomerTable(cs, ts), c.name, t0.parentTerritory)
  {
    forall x | x in CustomerTable(cs, ts) && x.name == c.name ensures x.parentTerritory == t0.parentTerritory {
      CustomerRowParent(cs, ts, c, t0, x);
    }
  }
}
