/** The admin routes of routes/user.js: POST /login, POST /admins and
    DELETE /admins/:id. The MD5 hex digest is the parameter `digest`, a
    deterministic function of the password. */
module Users {
  import opened Common

  /** One row of `admins`; `password` holds the digest, never the password. */
  datatype Admin = Admin(id: nat, employeeId: string, adminName: string, username: string, password: string)

  datatype LoginReply = CredentialsRequired | InvalidCredentials | LoggedIn(adminName: string, employeeId: string)
  {
    function Status(): nat
    {
      match this
      case CredentialsRequired => 400
      case InvalidCredentials => 401
      case LoggedIn(_, _) => 200
    }

    /** `success` and `message` of the JSON body. */
    function Success(): bool
    {
      LoggedIn?
    }

    function Message(): string
    {
      match this
      case CredentialsRequired => "Username and password are required"
      case InvalidCredentials => "Invalid credentials"
      case LoggedIn(_, _) => ""
    }
  }

  /** The JSON body of POST /admins. */
  datatype AdminForm = AdminForm(
    employeeId: Option<string>,
    adminName: Option<string>,
    username: Option<string>,
    password: Option<string>)

  datatype AdminReply =
    | FieldsRequired
    | UsernameTaken
    | AdminCreated(id: nat, employeeId: string, adminName: string, username: string)
    | AdminNotFound
    | AdminDeleted
  {
    function Status(): nat
    {
      match this
      case FieldsRequired => 400
      case UsernameTaken => 409
      case AdminCreated(_, _, _, _) => 201
      case AdminNotFound => 404
      case AdminDeleted => 200
    }
  }

  predicate UniqueIds(rows: seq<Admin>)
  {
    forall i, j :: 0 <= i < j < |rows| ==> rows[i].id != rows[j].id
  }

  predicate UniqueUsernames(rows: seq<Admin>)
  {
    forall i, j :: 0 <= i < j < |rows| ==> rows[i].username != rows[j].username
  }

  predicate HasUsername(rows: seq<Admin>, username: string)
  {
    exists i :: 0 <= i < |rows| && rows[i].username == username
  }

  predicate HasKey(rows: seq<Admin>, key: string)
  {
    exists i :: 0 <= i < |rows| && KeyMatches(key, rows[i].id)
  }

  // ---------------------------------------------------------------------
  // POST /login
  // ---------------------------------------------------------------------

  /** `SELECT * FROM admins WHERE username = ?`, then `results[0]`. */
  function FindByUsername(rows: seq<Admin>, username: string): (r: Option<Admin>)
    ensures r.Some? ==> r.value in rows && r.value.username == username
    ensures r.None? <==> !HasUsername(rows, username)
  {
    if rows == [] then None
    else if rows[0].username == username then Some(rows[0])
    else
      var r := FindByUsername(rows[1..], username);
      assert HasUsername(rows, username) ==> HasUsername(rows[1..], username) by {
        if HasUsername(rows, username) {
          var i :| 0 <= i < |rows| && rows[i].username == username;
          assert rows[1..][i - 1] == rows[i];
        }
      }
      assert HasUsername(rows[1..], username) ==> HasUsername(rows, username) by {
        if HasUsername(rows[1..], username) {
          var i :| 0 <= i < |rows| - 1 && rows[1..][i].username == username;
          assert rows[i + 1] == rows[1..][i];
        }
      }
      r
  }

  /** POST /login with body `{username, password}`. */
  function Login(rows: seq<Admin>, digest: string -> string, username: Option<string>, password: Option<string>)
    : (r: LoginReply)
    ensures r == CredentialsRequired <==> !Truthy(username) || !Truthy(password)
    ensures r.LoggedIn? ==>
      (exists a :: a in rows && a.username == username.value &&
         a.password == digest(password.value) && r == LoggedIn(a.adminName, a.employeeId))
  {
    if !Truthy(username) || !Truthy(password) then CredentialsRequired
    else match FindByUsername(rows, username.value)
      case None => InvalidCredentials
      case Some(user) =>
        if digest(password.value) != user.password then InvalidCredentials
        else LoggedIn(user.adminName, user.employeeId)
  }

  /** With unique usernames, login succeeds exactly when an admin has that
      username and the digest of that password. */
  lemma LoginSucceedsIff(rows: seq<Admin>, digest: string -> string, username: string, password: string)
    requires UniqueUsernames(rows)
    requires username != "" && password != ""
    ensures Login(rows, digest, Some(username), Some(password)).LoggedIn? <==>
      exists i :: 0 <= i < |rows| && rows[i].username == username && rows[i].password == digest(password)
  {
    if i :| 0 <= i < |rows| && rows[i].username == username && rows[i].password == digest(password) {
      var found := FindByUsername(rows, username);
      assert HasUsername(rows, username);
      var j :| 0 <= j < |rows| && rows[j] == found.value;
      assert i == j;
    }
  }

  /** An unknown username and a wrong password give the same reply, so the
      401 body does not tell which was wrong. */
  lemma UnknownUserLikeWrongPassword(rows: seq<Admin>, digest: string -> string,
                                     unknown: string, known: string, password: string)
    requires UniqueUsernames(rows)
    requires unknown != "" && known != "" && password != ""
    requires !HasUsername(rows, unknown)
    requires exists i :: 0 <= i < |rows| && rows[i].username == known && rows[i].password != digest(password)
    ensures Login(rows, digest, Some(unknown), Some(password)) == InvalidCredentials
    ensures Login(rows, digest, Some(known), Some(password)) == InvalidCredentials
  {
    LoginSucceedsIff(rows, digest, known, password);
  }

  /** Appending an admin with a new username makes it the one found by that username. */
  lemma {:induction false} FindAfterAppend(rows: seq<Admin>, a: Admin)
    requires !HasUsername(rows, a.username)
    ensures FindByUsername(rows + [a], a.username) == Some(a)
  {
    if rows != [] {
      assert (rows + [a])[1..] == rows[1..] + [a];
      assert !HasUsername(rows[1..], a.username);
      assert rows[0].username != a.username;
      FindAfterAppend(rows[1..], a);
    }
  }

  /** An admin stored with the digest of a password can log in with that password. */
  lemma LoginAfterAdd(rows: seq<Admin>, digest: string -> string, a: Admin, password: string)
    requires !HasUsername(rows, a.username)
    requires a.username != "" && password != ""
    requires a.password == digest(password)
    ensures Login(rows + [a], digest, Some(a.username), Some(password)) == LoggedIn(a.adminName, a.employeeId)
  {
    FindAfterAppend(rows, a);
  }

  // ---------------------------------------------------------------------
  // DELETE /admins/:id
  // ---------------------------------------------------------------------

  /** `DELETE FROM admins WHERE id = ?` */
  function WithoutAdmin(rows: seq<Admin>, key: string): (r: seq<Admin>)
    ensures forall a :: a in r <==> a in rows && !KeyMatches(key, a.id)
    ensures |r| <= |rows|
    ensures |r| < |rows| <==> HasKey(rows, key)
    ensures !HasKey(rows, key) ==> r == rows
  {
    if rows == [] then []
    else
      assert rows == [rows[0]] + rows[1..];
      assert HasKey(rows, key) <==> KeyMatches(key, rows[0].id) || HasKey(rows[1..], key) by {
        if HasKey(rows, key) && !KeyMatches(key, rows[0].id) {
          var i :| 0 <= i < |rows| && KeyMatches(key, rows[i].id);
          assert rows[1..][i - 1] == rows[i];
        }
        if HasKey(rows[1..], key) {
          var i :| 0 <= i < |rows| - 1 && KeyMatches(key, rows[1..][i].id);
          assert rows[i + 1] == rows[1..][i];
        }
      }
      if KeyMatches(key, rows[0].id) then WithoutAdmin(rows[1..], key)
      else [rows[0]] + WithoutAdmin(rows[1..], key)
  }

  /** Deleting by id keeps both ids and usernames unique. */
  lemma {:induction false} WithoutAdminKeepsKeys(rows: seq<Admin>, key: string)
    requires UniqueIds(rows) && UniqueUsernames(rows)
    ensures UniqueIds(WithoutAdmin(rows, key)) && UniqueUsernames(WithoutAdmin(rows, key))
  {
    if rows != [] {
      var rest := WithoutAdmin(rows[1..], key);
      assert UniqueIds(rows[1..]) && UniqueUsernames(rows[1..]);
      WithoutAdminKeepsKeys(rows[1..], key);
      if !KeyMatches(key, rows[0].id) {
        HeadDistinct(rows);
        assert forall a :: a in rest ==> a in rows[1..];
        PrependKeepsKeys(rows[0], rest);
      }
    }
  }

  /** A row whose id and username no other row has can be put in front. */
  lemma PrependKeepsKeys(a: Admin, rest: seq<Admin>)
    requires UniqueIds(rest) && UniqueUsernames(rest)
    requires forall b :: b in rest ==> b.id != a.id && b.username != a.username
    ensures UniqueIds([a] + rest) && UniqueUsernames([a] + rest)
  {
    var t := [a] + rest;
    forall i, j | 0 <= i < j < |t|
      ensures t[i].id != t[j].id && t[i].username != t[j].username
    {
      assert t[j] == rest[j - 1];
      if i > 0 {
        assert t[i] == rest[i - 1];
      }
    }
  }

  lemma HeadDistinct(rows: seq<Admin>)
    requires rows != [] && UniqueIds(rows) && UniqueUsernames(rows)
    ensures forall a :: a in rows[1..] ==> a.id != rows[0].id && a.username != rows[0].username
  {
    forall a | a in rows[1..] ensures a.id != rows[0].id && a.username != rows[0].username {
      var k :| 0 <= k < |rows| - 1 && rows[1..][k] == a;
      assert rows[k + 1] == a;
    }
  }

  /** Deleting by an id that exists removes exactly one row. */
  lemma {:induction false} WithoutAdminRemovesOne(rows: seq<Admin>, key: string)
    requires UniqueIds(rows)
    ensures |WithoutAdmin(rows, key)| == if HasKey(rows, key) then |rows| - 1 else |rows|
  {
    if rows != [] {
      assert UniqueIds(rows[1..]);
      WithoutAdminRemovesOne(rows[1..], key);
      if KeyMatches(key, rows[0].id) {
        assert !HasKey(rows[1..], key) by {
          if HasKey(rows[1..], key) {
            var i :| 0 <= i < |rows| - 1 && KeyMatches(key, rows[1..][i].id);
            KeyMatchesOne(key, rows[0].id, rows[1..][i].id);
          }
        }
      }
    }
  }

  /** The `admins` table with its AUTO_INCREMENT counter and the digest it stores. */
  class AdminTable {
    var rows: seq<Admin>
    var nextId: nat
    const digest: string -> string

    ghost predicate Valid()
      reads this
    {
      UniqueIds(rows) && UniqueUsernames(rows) &&
      (forall i :: 0 <= i < |rows| ==> rows[i].id < nextId)
    }

    constructor (digest: string -> string)
      ensures Valid() && rows == [] && nextId == 1 && this.digest == digest
    {
      rows := [];
      nextId := 1;
      this.digest := digest;
    }

    /** POST /admins. */
    method AddAdmin(form: AdminForm) returns (reply: AdminReply)
      requires Valid()
      modifies this
      ensures Valid()
      ensures reply == FieldsRequired <==>
        !Truthy(form.employeeId) || !Truthy(form.adminName) || !Truthy(form.username) || !Truthy(form.password)
      ensures reply == UsernameTaken <==>
        reply != FieldsRequired && HasUsername(old(rows), form.username.value)
      ensures reply.AdminCreated? ==>
        rows == old(rows) + [Admin(old(nextId), form.employeeId.value, form.adminName.value,
                                   form.username.value, digest(form.password.value))] &&
        nextId == old(nextId) + 1 &&
        reply == AdminCreated(old(nextId), form.employeeId.value, form.adminName.value, form.username.value)
      ensures reply.AdminCreated? ==>
        Login(rows, digest, form.username, form.password) == LoggedIn(form.adminName.value, form.employeeId.value)
      ensures !reply.AdminCreated? ==> rows == old(rows) && nextId == old(nextId)
      ensures reply == FieldsRequired || reply == UsernameTaken || reply.AdminCreated?
    {
      if !Truthy(form.employeeId) || !Truthy(form.adminName) || !Truthy(form.username) || !Truthy(form.password) {
        return FieldsRequired;
      }
      var existing := FindByUsername(rows, form.username.value);
      if existing.Some? {
        return UsernameTaken;
      }
      var hashed := digest(form.password.value);
      var admin := Admin(nextId, form.employeeId.value, form.adminName.value, form.username.value, hashed);
      LoginAfterAdd(rows, digest, admin, form.password.value);
      var t := rows + [admin];
      forall i, j | 0 <= i < j < |t| ensures t[i].username != t[j].username && t[i].id != t[j].id {
        if j == |rows| {
          assert t[i] == rows[i];
        }
      }
      rows := t;
      reply := AdminCreated(nextId, form.employeeId.value, form.adminName.value, form.username.value);
      nextId := nextId + 1;
    }

    /** DELETE /admins/:id. */
    method DeleteAdmin(key: string) returns (reply: AdminReply)
      requires Valid()
      modifies this
      ensures Valid() && nextId == old(nextId)
      ensures rows == WithoutAdmin(old(rows), key)
      ensures reply == AdminNotFound <==> !HasKey(old(rows), key)
      ensures reply == AdminNotFound ==> rows == old(rows)
      ensures reply != AdminNotFound ==> reply == AdminDeleted
    {
      WithoutAdminKeepsKeys(rows, key);
      var before := |rows|;
      rows := WithoutAdmin(rows, key);
      var affectedRows := before - |rows|;
      reply := if affectedRows == 0 then AdminNotFound else AdminDeleted;
    }
  }
}
