/** Admin management (backend/src/controllers/adminManagementController.js):
    the creation schema and duplicate-email check, the field-selective
    update, and deactivation and deletion with their guard against acting on
    one's own account. Identifiers from the URL are the integers `parseInt`
    yields; the signed-in admin's id comes from the session. */
module Admins {
  import opened Wrappers
  import Strings

  /** An admin row; `password` holds the stored hash. */
  datatype Admin = Admin(
    id: nat,
    name: string,
    email: string,
    password: string,
    role: string,
    isActive: bool,
    createdAt: int)

  datatype AdminTable = AdminTable(rows: seq<Admin>, nextId: nat)

  ghost predicate UniqueIds(rows: seq<Admin>)
  {
    forall i, j | 0 <= i < j < |rows| :: rows[i].id != rows[j].id
  }

  ghost predicate UniqueEmails(rows: seq<Admin>)
  {
    forall i, j | 0 <= i < j < |rows| :: rows[i].email != rows[j].email
  }

  predicate HasId(rows: seq<Admin>, id: int)
  {
    exists i | 0 <= i < |rows| :: rows[i].id == id
  }

  predicate EmailTaken(rows: seq<Admin>, email: string)
  {
    exists i | 0 <= i < |rows| :: rows[i].email == email
  }

  const Roles: set<string> := {"Super Admin", "Staff Admin"}

  /** The request body of a create. `emailValid` is the verdict of the
      email-format check, whose pattern is not part of this model. */
  datatype AdminInput = AdminInput(name: string, email: string, password: string, role: string)

  /** The issues `adminSchema` reports, in field order. */
  function AdminIssues(input: AdminInput, emailValid: bool): (issues: seq<string>)
    ensures |issues| == 0 <==> Strings.Utf16Length(input.name) >= 3 && emailValid
                               && Strings.Utf16Length(input.password) >= 8 && input.role in Roles
    ensures |issues| <= 4
  {
    (if Strings.Utf16Length(input.name) < 3 then ["Name must be at least 3 characters"] else [])
    + (if !emailValid then ["Invalid email format"] else [])
    + (if Strings.Utf16Length(input.password) < 8 then ["Password must be at least 8 characters"] else [])
    + (if input.role !in Roles
       then ["Invalid enum value. Expected 'Super Admin' | 'Staff Admin', received '" + input.role + "'"]
       else [])
  }

  /** `createAdmin`: schema issues answer 400; an email already in use 409;
      otherwise a new active admin is appended holding the hash of the
      password (`hashed`, computed outside the model). */
  function CreateAdmin(table: AdminTable, input: AdminInput, emailValid: bool, hashed: string, now: int)
    : (r: Outcome<(AdminTable, Admin)>)
    ensures r.Invalid? <==> !(Strings.Utf16Length(input.name) >= 3 && emailValid
                              && Strings.Utf16Length(input.password) >= 8 && input.role in Roles)
    ensures r.Invalid? ==> |r.issues| > 0
    ensures !r.Invalid? && EmailTaken(table.rows, input.email) ==> r == Fail(409, "Email already in use")
    ensures r.Ok? <==> !r.Invalid? && !EmailTaken(table.rows, input.email)
    ensures r.Ok? ==>
              && r.value.0.rows == table.rows + [r.value.1]
              && r.value.1 == Admin(table.nextId, input.name, input.email, hashed, input.role, true, now)
  {
    var issues := AdminIssues(input, emailValid);
    if |issues| > 0 then Invalid(issues)
    else if EmailTaken(table.rows, input.email) then Fail(409, "Email already in use")
    else
      var a := Admin(table.nextId, input.name, input.email, hashed, input.role, true, now);
      Ok((AdminTable(table.rows + [a], table.nextId + 1), a))
  }

  /** The fields an update may carry. A string field is applied only when
      present and non-empty (JavaScript truthiness); `isActive` whenever it
      is a boolean. */
  datatype AdminPatch = AdminPatch(
    name: Option<string>,
    email: Option<string>,
    role: Option<string>,
    isActive: Option<bool>)

  predicate Truthy(s: Option<string>)
  {
    s.Some? && s.value != ""
  }

  function Patch(a: Admin, p: AdminPatch): (b: Admin)
    ensures b.name == (if Truthy(p.name) then p.name.value else a.name)
    ensures b.email == (if Truthy(p.email) then p.email.value else a.email)
    ensures b.role == (if Truthy(p.role) then p.role.value else a.role)
    ensures b.isActive == (if p.isActive.Some? then p.isActive.value else a.isActive)
    ensures b.id == a.id && b.password == a.password && b.createdAt == a.createdAt
  {
    a.(name := if Truthy(p.name) then p.name.value else a.name,
       email := if Truthy(p.email) then p.email.value else a.email,
       role := if Truthy(p.role) then p.role.value else a.role,
       isActive := if p.isActive.Some? then p.isActive.value else a.isActive)
  }

  /** Applies the patch to the row with the id; every other row is kept. */
  function PatchRows(rows: seq<Admin>, id: int, p: AdminPatch): (r: seq<Admin>)
    ensures |r| == |rows|
    ensures forall i | 0 <= i < |rows| :: r[i] == if rows[i].id == id then Patch(rows[i], p) else rows[i]
  {
    if |rows| == 0 then []
    else [if rows[0].id == id then Patch(rows[0], p) else rows[0]] + PatchRows(rows[1..], id, p)
  }

  /** A new email that another admin already has breaks the column's
      uniqueness constraint. */
  predicate EmailClash(rows: seq<Admin>, id: int, p: AdminPatch)
  {
    Truthy(p.email) && exists i | 0 <= i < |rows| :: rows[i].id != id && rows[i].email == p.email.value
  }

  /** `updateAdmin`: an unknown id and an email clash surface as database
      errors, both answered 500. */
  function UpdateAdmin(table: AdminTable, id: int, p: AdminPatch): (r: Outcome<AdminTable>)
    ensures r.Ok? <==> HasId(table.rows, id) && !EmailClash(table.rows, id, p)
    ensures !r.Ok? ==> r == Fail(500, "Server error")
    ensures r.Ok? ==>
              && |r.value.rows| == |table.rows| && r.value.nextId == table.nextId
              && forall i | 0 <= i < |table.rows| ::
                   r.value.rows[i] == if table.rows[i].id == id then Patch(table.rows[i], p) else table.rows[i]
  {
    if !HasId(table.rows, id) || EmailClash(table.rows, id, p) then Fail(500, "Server error")
    else Ok(AdminTable(PatchRows(table.rows, id, p), table.nextId))
  }

  /** Repeating an update changes nothing more. */
  lemma UpdateAdminIdempotent(table: AdminTable, id: int, p: AdminPatch)
    requires UpdateAdmin(table, id, p).Ok?
    ensures UpdateAdmin(UpdateAdmin(table, id, p).value, id, p) == UpdateAdmin(table, id, p)
  {
    var t1 := UpdateAdmin(table, id, p).value;
    assert HasId(t1.rows, id) by {
      var i :| 0 <= i < |table.rows| && table.rows[i].id == id;
      assert t1.rows[i].id == id;
    }
    assert !EmailClash(t1.rows, id, p) by {
      if Truthy(p.email) {
        forall i | 0 <= i < |t1.rows| && t1.rows[i].id != id
          ensures t1.rows[i].email != p.email.value
        {
          assert t1.rows[i] == table.rows[i];
        }
      }
    }
    var t2 := UpdateAdmin(t1, id, p).value;
    forall i | 0 <= i < |t1.rows|
      ensures t2.rows[i] == t1.rows[i]
    {
      assert t1.rows[i].id == table.rows[i].id;
    }
    assert t2.rows == t1.rows;
  }

  /** An update that carries no field leaves the table as it was. */
  lemma EmptyUpdateChangesNothing(table: AdminTable, id: int)
    requires HasId(table.rows, id)
    ensures UpdateAdmin(table, id, AdminPatch(None, None, None, None)) == Ok(table)
  {
    var t1 := UpdateAdmin(table, id, AdminPatch(None, None, None, None)).value;
    assert t1.rows == table.rows;
  }

  /** Emails stay unique under updates. */
  lemma UpdateKeepsEmailsUnique(table: AdminTable, id: int, p: AdminPatch)
    requires UniqueIds(table.rows) && UniqueEmails(table.rows)
    requires UpdateAdmin(table, id, p).Ok?
    ensures UniqueEmails(UpdateAdmin(table, id, p).value.rows)
  {
    var t1 := UpdateAdmin(table, id, p).value;
    forall i, j | 0 <= i < j < |t1.rows| ensures t1.rows[i].email != t1.rows[j].email {
      if table.rows[i].id == id && Truthy(p.email) {
        assert table.rows[j].id != id;
      } else if table.rows[j].id == id && Truthy(p.email) {
        assert table.rows[i].id != id;
      }
    }
  }

  /** Emails stay unique under creation. */
  lemma CreateKeepsEmailsUnique(table: AdminTable, input: AdminInput, emailValid: bool, hashed: string, now: int)
    requires UniqueEmails(table.rows)
    requires CreateAdmin(table, input, emailValid, hashed, now).Ok?
    ensures UniqueEmails(CreateAdmin(table, input, emailValid, hashed, now).value.0.rows)
  {
  }

  /** `deactivateAdmin`: refusing one's own account comes first; an unknown
      id is a database error answered 500; otherwise only `isActive` of
      that admin becomes false. */
  function DeactivateAdmin(table: AdminTable, id: int, self: nat): (r: Outcome<AdminTable>)
    ensures id == self ==> r == Fail(400, "Cannot deactivate your own account")
    ensures id != self && !HasId(table.rows, id) ==> r == Fail(500, "Server error")
    ensures r.Ok? <==> id != self && HasId(table.rows, id)
    ensures r.Ok? ==>
              && |r.value.rows| == |table.rows| && r.value.nextId == table.nextId
              && forall i | 0 <= i < |table.rows| ::
                   r.value.rows[i] == if table.rows[i].id == id then table.rows[i].(isActive := false) else table.rows[i]
  {
    if id == self then Fail(400, "Cannot deactivate your own account")
    else if !HasId(table.rows, id) then Fail(500, "Server error")
    else Ok(AdminTable(PatchRows(table.rows, id, AdminPatch(None, None, None, Some(false))), table.nextId))
  }

  /** Deactivation is the update that carries only `isActive: false`, when
      the target is someone else. */
  lemma DeactivateIsUpdateOfIsActive(table: AdminTable, id: int, self: nat)
    requires id != self
    ensures DeactivateAdmin(table, id, self) == UpdateAdmin(table, id, AdminPatch(None, None, None, Some(false)))
  {
  }

  /** `deleteAdmin`: the same guard, then the row with that id goes and
      every other row stays in order. */
  function DeleteAdmin(table: AdminTable, id: int, self: nat): (r: Outcome<AdminTable>)
    ensures id == self ==> r == Fail(400, "Cannot delete your own account")
    ensures id != self && !HasId(table.rows, id) ==> r == Fail(500, "Server error")
    ensures r.Ok? <==> id != self && HasId(table.rows, id)
    ensures r.Ok? ==> !HasId(r.value.rows, id) && r.value.nextId == table.nextId
    ensures r.Ok? ==> forall a :: a in r.value.rows <==> a in table.rows && a.id != id
  {
    if id == self then Fail(400, "Cannot delete your own account")
    else if !HasId(table.rows, id) then Fail(500, "Server error")
    else Ok(AdminTable(Without(table.rows, id), table.nextId))
  }

  function Without(rows: seq<Admin>, id: int): (r: seq<Admin>)
    ensures forall a :: a in r <==> a in rows && a.id != id
    ensures |r| <= |rows|
  {
    if |rows| == 0 then []
    else
      assert rows == [rows[0]] + rows[1..];
      (if rows[0].id == id then [] else [rows[0]]) + Without(rows[1..], id)
  }

  /** With unique ids, a deletion removes exactly one row. */
  lemma {:induction false} WithoutRemovesOne(rows: seq<Admin>, i: nat)
    requires UniqueIds(rows) && i < |rows|
    ensures |Without(rows, rows[i].id)| == |rows| - 1
  {
    if i == 0 {
      WithoutAbsent(rows[1..], rows[0].id);
    } else {
      assert rows[0].id != rows[i].id;
      WithoutRemovesOne(rows[1..], i - 1);
    }
  }

  lemma {:induction false} WithoutAbsent(rows: seq<Admin>, id: int)
    requires forall k | 0 <= k < |rows| :: rows[k].id != id
    ensures Without(rows, id) == rows
  {
    if |rows| > 0 {
      WithoutAbsent(rows[1..], id);
    }
  }

  /** Neither guarded operation ever touches the signed-in admin's own row:
      the request is refused, and on any other target that row is kept
      unchanged. */
  lemma OwnAccountUntouched(table: AdminTable, id: int, self: nat, own: Admin)
    requires UniqueIds(table.rows) && own in table.rows && own.id == self
    ensures DeactivateAdmin(table, id, self).Ok? ==> own in DeactivateAdmin(table, id, self).value.rows
    ensures DeleteAdmin(table, id, self).Ok? ==> own in DeleteAdmin(table, id, self).value.rows
  {
    if DeactivateAdmin(table, id, self).Ok? {
      var k :| 0 <= k < |table.rows| && table.rows[k] == own;
      assert DeactivateAdmin(table, id, self).value.rows[k] == own;
    }
  }
}
