/**
 * The four record lists of `window.db` (accounts, departments, employees,
 * requests), the lookups the handlers perform on them, the collection of a
 * request's item rows, and the read-only projections the employee and request
 * tables are drawn from.
 */
module Records {
  import opened Wrappers
  import opened Seqs
  import opened Text

  datatype Role = Admin | User

  /** A user account; `email` is stored trimmed and lower-cased and `password` in plain text, as the source does. */
  datatype Account = Account(
    id: string, firstName: string, lastName: string, email: string,
    password: string, role: Role, verified: bool)

  datatype Department = Department(id: string, name: string, description: string)

  /** An employee record; `userEmail` names an account, `departmentId` a department (or "" when none was chosen). */
  datatype Employee = Employee(
    id: string, employeeId: string, userEmail: string, position: string,
    departmentId: string, hireDate: string)

  datatype Item = Item(name: string, qty: int)

  datatype RequestStatus = Pending | Approved | Rejected

  /** A supply request; `kind` is the source's `type` field and `date` the ISO timestamp taken at submission. */
  datatype Request = Request(
    id: string, kind: string, items: seq<Item>, status: RequestStatus,
    date: string, employeeEmail: string)

  // Keys by which the lists are searched.
  function AccountId(a: Account): string { a.id }
  function AccountEmail(a: Account): string { a.email }
  function DepartmentId(d: Department): string { d.id }
  function EmployeeRecordId(e: Employee): string { e.id }
  function EmployeeEmail(e: Employee): string { e.userEmail }
  function EmployeeDepartment(e: Employee): string { e.departmentId }
  function RequestId(r: Request): string { r.id }

  /** The account `handleLogin` accepts: the first with exactly this email and password whose `verified` is true. */
  function Credentials(accounts: seq<Account>, email: string, password: string): (r: Option<Account>)
    ensures r.Some? ==> r.value in accounts && r.value.email == email && r.value.password == password && r.value.verified
    ensures r.None? <==> forall a :: a in accounts ==> !(a.email == email && a.password == password && a.verified)
  {
    var i := FirstIndex(accounts, (a: Account) => a.email == email && a.password == password && a.verified);
    if i.Some? then Some(accounts[i.value]) else None
  }

  /**
   * The identity `checkAuth` restores from the remembered token: the first
   * account whose email equals the token, if that account is verified; nothing
   * for a missing or empty token.
   */
  function Restore(token: Option<string>, accounts: seq<Account>): (r: Option<Account>)
    ensures r.Some? ==> r.value in accounts && r.value.verified && r.value.email != "" && token == Some(r.value.email)
  {
    if token.None? || token.value == "" then None
    else
      var i := FirstIndex(accounts, (a: Account) => a.email == token.value);
      if i.Some? && accounts[i.value].verified then Some(accounts[i.value]) else None
  }

  /** With distinct emails, a token naming a verified account restores exactly that account. */
  lemma RestoreFinds(token: Option<string>, accounts: seq<Account>, a: Account)
    requires Distinct(accounts, AccountEmail)
    requires a in accounts && a.verified && a.email != "" && token == Some(a.email)
    ensures Restore(token, accounts) == Some(a)
  {
    var k :| 0 <= k < |accounts| && accounts[k] == a;
    var i := FirstIndex(accounts, (b: Account) => b.email == a.email);
    assert i.Some? && i.value <= k;
    assert AccountEmail(accounts[i.value]) == AccountEmail(accounts[k]);
  }

  /** One row of the request form as read: the raw name field and `parseInt` of the quantity field (None for NaN). */
  datatype ItemRow = ItemRow(name: string, qty: Option<int>)

  /** The item a row contributes: its trimmed name and quantity, when the name is not blank and the quantity is neither NaN nor 0. */
  function RowItem(row: ItemRow): (r: Option<Item>)
    ensures r.Some? <==> Trim(row.name) != "" && row.qty.Some? && row.qty.value != 0
    ensures r.Some? ==> r.value.name == Trim(row.name) && r.value.qty == row.qty.value
  {
    var name := Trim(row.name);
    if name != "" && row.qty.Some? && row.qty.value != 0 then Some(Item(name, row.qty.value)) else None
  }

  /** A row is dropped exactly when its name is all white space or its quantity is NaN or 0. */
  lemma RowItemDropped(row: ItemRow)
    ensures RowItem(row).None? <==>
      (forall k :: 0 <= k < |row.name| ==> IsSpace(row.name[k])) || row.qty.None? || row.qty.value == 0
  {
    TrimSpec(row.name);
  }

  /**
   * The items `handleRequestForm` collects from the rows, in row order: at
   * most one per row, each with a non-empty name and a non-zero quantity;
   * every row that is not dropped contributes its item, and every item comes
   * from such a row.
   */
  function KeptItems(rows: seq<ItemRow>): (items: seq<Item>)
    ensures |items| <= |rows|
    ensures forall k :: 0 <= k < |items| ==> items[k].name != "" && items[k].qty != 0
    ensures forall k :: 0 <= k < |rows| && RowItem(rows[k]).Some? ==> RowItem(rows[k]).value in items
    ensures forall i :: 0 <= i < |items| ==> exists k :: 0 <= k < |rows| && RowItem(rows[k]) == Some(items[i])
  {
    FilterMapAll(rows, RowItem, (it: Item) => it.name != "" && it.qty != 0);
    FilterMap(rows, RowItem)
  }

  /** The items of later rows come after those of earlier rows. */
  lemma KeptItemsAppend(a: seq<ItemRow>, b: seq<ItemRow>)
    ensures KeptItems(a + b) == KeptItems(a) + KeptItems(b)
  {
    FilterMapAppend(a, b, RowItem);
  }

  /** No item survives exactly when every row is dropped: then the request is refused. */
  lemma KeptItemsEmpty(rows: seq<ItemRow>)
    ensures KeptItems(rows) == [] <==> forall k :: 0 <= k < |rows| ==> RowItem(rows[k]).None?
  {
    FilterMapEmpty(rows, RowItem);
  }

  /** Every collected name is already trimmed: it is its own `trim()`. */
  lemma KeptItemNamesTrimmed(rows: seq<ItemRow>)
    ensures forall k :: 0 <= k < |KeptItems(rows)| ==> Trim(KeptItems(rows)[k].name) == KeptItems(rows)[k].name
  {
    forall k | 0 <= k < |rows| && RowItem(rows[k]).Some?
      ensures Trim(RowItem(rows[k]).value.name) == RowItem(rows[k]).value.name
    {
      TrimSpec(rows[k].name);
      TrimOfTrimmed(Trim(rows[k].name));
    }
    FilterMapAll(rows, RowItem, (it: Item) => Trim(it.name) == it.name);
  }

  /** The `forEach` over the item rows in `handleRequestForm`. */
  method CollectItems(rows: seq<ItemRow>) returns (items: seq<Item>)
    ensures items == KeptItems(rows)
  {
    items := [];
    var i := 0;
    while i < |rows|
      invariant 0 <= i <= |rows|
      invariant items == KeptItems(rows[..i])
    {
      var name := Trim(rows[i].name);
      var qty := rows[i].qty;
      if name != "" && qty.Some? && qty.value != 0 {
        items := items + [Item(name, qty.value)];
      }
      assert FilterMap(rows[..i + 1], RowItem) == FilterMap(rows[..i], RowItem) + if RowItem(rows[i]).Some? then [RowItem(rows[i]).value] else [] by {
        assert rows[..i + 1][..i] == rows[..i];
      }
      i := i + 1;
    }
    assert rows[..|rows|] == rows;
  }

  /** The requests `renderRequests` lists for the user with this email, in submission order. */
  function RequestsOf(requests: seq<Request>, email: string): (r: seq<Request>)
    ensures forall q :: q in r <==> q in requests && q.employeeEmail == email
  {
    Filter(requests, (q: Request) => q.employeeEmail == email)
  }

  /** A newly stored request comes last in its submitter's list and leaves every other user's list as it was. */
  lemma RequestsOfAppend(requests: seq<Request>, q: Request, email: string)
    ensures RequestsOf(requests + [q], email) ==
      RequestsOf(requests, email) + (if q.employeeEmail == email then [q] else [])
  {
    var keep := (x: Request) => x.employeeEmail == email;
    FilterAppend(requests, [q], keep);
    assert Filter([q], keep) == (if q.employeeEmail == email then [q] else []) by {
      assert [q][1..] == [];
    }
  }

  /** One line of the employee table: business id, the owner's full name, position, department name. */
  datatype EmployeeRow = EmployeeRow(employeeId: string, userName: string, position: string, department: string)

  /**
   * The join `renderEmployees` draws for one employee: the name of the
   * account with the employee's email (the email itself when there is none)
   * and the name of the employee's department ("N/A" when there is none).
   */
  function EmployeeRowOf(e: Employee, accounts: seq<Account>, departments: seq<Department>): (row: EmployeeRow)
    ensures row.employeeId == e.employeeId && row.position == e.position
    ensures !HasKey(accounts, AccountEmail, e.userEmail) ==> row.userName == e.userEmail
    ensures HasKey(accounts, AccountEmail, e.userEmail) ==>
      exists a :: a in accounts && a.email == e.userEmail && row.userName == a.firstName + " " + a.lastName
    ensures !HasKey(departments, DepartmentId, e.departmentId) ==> row.department == "N/A"
    ensures HasKey(departments, DepartmentId, e.departmentId) ==>
      exists d :: d in departments && d.id == e.departmentId && row.department == d.name
  {
    var userName :=
      if HasKey(accounts, AccountEmail, e.userEmail) then
        var a := accounts[IndexOfKey(accounts, AccountEmail, e.userEmail)];
        a.firstName + " " + a.lastName
      else e.userEmail;
    var department :=
      if HasKey(departments, DepartmentId, e.departmentId) then
        departments[IndexOfKey(departments, DepartmentId, e.departmentId)].name
      else "N/A";
    EmployeeRow(e.employeeId, userName, e.position, department)
  }

  /** The employee table: one row per employee, in list order. */
  function EmployeeRows(employees: seq<Employee>, accounts: seq<Account>, departments: seq<Department>): (rows: seq<EmployeeRow>)
    ensures |rows| == |employees|
    ensures forall k :: 0 <= k < |rows| ==> rows[k] == EmployeeRowOf(employees[k], accounts, departments)
  {
    seq(|employees|, k requires 0 <= k < |employees| => EmployeeRowOf(employees[k], accounts, departments))
  }
}
