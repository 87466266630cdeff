/**
  The account logic of database/db_utils.py that does not depend on SQLite:
  password hashing and checking, the allow-list that builds `update_user`'s
  statement, and the removal of the hash from `authenticate_user`'s result.

  SHA-256 is a parameter `sha256`, standing for the digest of the UTF-8
  encoding of a password; the statement execution and the user lookup are
  inputs.
*/
module DbUtils {
  import opened Wrappers
  import opened Text
  import opened Seqs
  import opened Dicts

  newtype byte = x: int | 0 <= x < 256

  // ---------------------------------------------------------------------------
  // hash_password / verify_password

  /** A lower-case hexadecimal digit. */
  function HexDigit(n: int): (c: char)
    requires 0 <= n < 16
  {
    if n < 10 then '0' + (n as char) else 'a' + ((n - 10) as char)
  }

  predicate IsHexDigit(c: char) {
    '0' <= c <= '9' || 'a' <= c <= 'f'
  }

  /** `bytes.hex()`: two lower-case digits per byte, high nibble first. */
  function Hex(bs: seq<byte>): (h: string)
    ensures |h| == 2 * |bs|
    ensures forall i | 0 <= i < |h| :: IsHexDigit(h[i])
  {
    if bs == [] then []
    else [HexDigit(bs[0] as int / 16), HexDigit(bs[0] as int % 16)] + Hex(bs[1..])
  }

  lemma HexDigitInjective(m: int, n: int)
    requires 0 <= m < 16 && 0 <= n < 16
    ensures HexDigit(m) == HexDigit(n) ==> m == n
  {
  }

  /** Distinct digests have distinct hex forms. */
  lemma {:induction false} HexInjective(a: seq<byte>, b: seq<byte>)
    ensures Hex(a) == Hex(b) ==> a == b
    decreases |a|
  {
    if Hex(a) == Hex(b) && a != [] {
      assert |b| == |a|;
      var x, y := a[0] as int, b[0] as int;
      assert Hex(a)[0] == Hex(b)[0] && Hex(a)[1] == Hex(b)[1];
      HexDigitInjective(x / 16, y / 16);
      HexDigitInjective(x % 16, y % 16);
      assert x == 16 * (x / 16) + x % 16;
      assert y == 16 * (y / 16) + y % 16;
      assert Hex(a)[2..] == Hex(a[1..]) && Hex(b)[2..] == Hex(b[1..]);
      HexInjective(a[1..], b[1..]);
      assert a == [a[0]] + a[1..] && b == [b[0]] + b[1..];
    }
  }

  /** `hash_password`: the hex form of the SHA-256 digest. */
  function HashPassword(sha256: string -> seq<byte>, password: string): (h: string)
    ensures |h| == 2 * |sha256(password)|
  {
    Hex(sha256(password))
  }

  /** `verify_password`. */
  predicate VerifyPassword(sha256: string -> seq<byte>, password: string, passwordHash: string) {
    HashPassword(sha256, password) == passwordHash
  }

  /** A password always verifies against its own hash. */
  lemma VerifyOwnHash(sha256: string -> seq<byte>, password: string)
    ensures VerifyPassword(sha256, password, HashPassword(sha256, password))
  {
  }

  /** A password verifies against the hash of another exactly when the two digests agree. */
  lemma VerifyAgainstHash(sha256: string -> seq<byte>, password: string, other: string)
    ensures VerifyPassword(sha256, password, HashPassword(sha256, other)) <==> sha256(password) == sha256(other)
  {
    HexInjective(sha256(password), sha256(other));
  }

  // ---------------------------------------------------------------------------
  // update_user

  /** `allowed_fields`. */
  const AllowedFields: seq<string> := ["name", "email", "image_url", "interests", "password_hash"]

  /** The allow-list with "password" added, so that the hashing branch can be taken. */
  const AllowedFieldsWithPassword: seq<string> := AllowedFields + ["password"]

  /** A value in `updates`: text or `None`. Truthy when it is non-empty text. */
  type FieldValue = Option<string>

  predicate Truthy(v: FieldValue) {
    v.Some? && v.value != ""
  }

  /** A parameter of the statement: a field's new value, or the user id of the WHERE clause. */
  datatype Param = Value(v: FieldValue) | UserId(id: int)

  /** The (column, value) assignment one item of `updates` contributes, if any. */
  function AssignmentOf(allowed: seq<string>, sha256: string -> seq<byte>, field: string, value: FieldValue): (r: seq<(string, FieldValue)>)
    ensures |r| <= 1
    ensures field !in allowed ==> r == []
  {
    if field in allowed then
      if field == "password" && Truthy(value) then [("password_hash", Some(HashPassword(sha256, value.value)))]
      else if field != "password" then [(field, value)]
      else []
    else []
  }

  /** The assignments of the update loop, in the iteration order of `updates`. */
  function Assignments(allowed: seq<string>, sha256: string -> seq<byte>, updates: Dict<string, FieldValue>): seq<(string, FieldValue)>
    decreases |updates|
  {
    if updates == [] then []
    else
      var last := updates[|updates| - 1];
      Assignments(allowed, sha256, updates[..|updates| - 1]) + AssignmentOf(allowed, sha256, last.0, last.1)
  }

  function Clause(a: (string, FieldValue)): string {
    a.0 + " = ?"
  }

  /** `update_fields`. */
  function Clauses(asg: seq<(string, FieldValue)>): (r: seq<string>)
    ensures |r| == |asg|
  {
    seq(|asg|, i requires 0 <= i < |asg| => Clause(asg[i]))
  }

  /** `values` before the user id is appended. */
  function Values(asg: seq<(string, FieldValue)>): (r: seq<Param>)
    ensures |r| == |asg|
  {
    seq(|asg|, i requires 0 <= i < |asg| => Value(asg[i].1))
  }

  lemma ClausesAppend(a: seq<(string, FieldValue)>, b: seq<(string, FieldValue)>)
    ensures Clauses(a + b) == Clauses(a) + Clauses(b)
    ensures Values(a + b) == Values(a) + Values(b)
  {
    assert forall i | 0 <= i < |a + b| :: Clauses(a + b)[i] == (Clauses(a) + Clauses(b))[i];
    assert forall i | 0 <= i < |a + b| :: Values(a + b)[i] == (Values(a) + Values(b))[i];
  }

  lemma ClausesSingle(x: (string, FieldValue))
    ensures Clauses([x]) == [Clause(x)] && Values([x]) == [Value(x.1)]
    ensures Clauses([]) == [] && Values([]) == []
  {
  }

  /** The loop of `update_user`: `update_fields` and `values` built item by item. */
  method BuildUpdate(allowed: seq<string>, sha256: string -> seq<byte>, updates: Dict<string, FieldValue>)
    returns (updateFields: seq<string>, values: seq<Param>)
    ensures updateFields == Clauses(Assignments(allowed, sha256, updates))
    ensures values == Values(Assignments(allowed, sha256, updates))
  {
    updateFields, values := [], [];
    var i := 0;
    while i < |updates|
      invariant 0 <= i <= |updates|
      invariant updateFields == Clauses(Assignments(allowed, sha256, updates[..i]))
      invariant values == Values(Assignments(allowed, sha256, updates[..i]))
    {
      var (field, value) := updates[i];
      assert updates[..i + 1][..i] == updates[..i];
      ghost var before := Assignments(allowed, sha256, updates[..i]);
      ghost var after := Assignments(allowed, sha256, updates[..i + 1]);
      assert after == before + AssignmentOf(allowed, sha256, field, value);
      ClausesAppend(before, AssignmentOf(allowed, sha256, field, value));
      if AssignmentOf(allowed, sha256, field, value) != [] {
        var a := AssignmentOf(allowed, sha256, field, value);
        assert a == [a[0]];
        ClausesSingle(a[0]);
      } else {
        ClausesSingle(("", None));
        assert before + [] == before;
      }
      if field in allowed {
        if field == "password" && Truthy(value) {
          updateFields := updateFields + ["password_hash = ?"];
          values := values + [Value(Some(HashPassword(sha256, value.value)))];
          assert AssignmentOf(allowed, sha256, field, value) == [("password_hash", Some(HashPassword(sha256, value.value)))];
          assert Clause(("password_hash", Some(HashPassword(sha256, value.value)))) == "password_hash = ?";
        } else if field != "password" {
          updateFields := updateFields + [field + " = ?"];
          values := values + [Value(value)];
          assert AssignmentOf(allowed, sha256, field, value) == [(field, value)];
        }
      }
      assert updateFields == Clauses(after);
      assert values == Values(after);
      i := i + 1;
    }
    assert updates[..i] == updates;
  }

  /** The statement `update_user` runs, or `None` when no field is allowed and it returns early. */
  function UpdateStatement(userId: int, asg: seq<(string, FieldValue)>): (r: Option<(string, seq<Param>)>)
    ensures r.None? <==> asg == []
    ensures r.Some? ==> |r.value.1| == |asg| + 1 && r.value.1[|asg|] == UserId(userId)
    ensures r.Some? ==> forall i | 0 <= i < |asg| :: r.value.1[i] == Value(asg[i].1)
  {
    if asg == [] then None
    else Some(("UPDATE Users SET " + Join(", ", Clauses(asg)) + " WHERE user_id = ?", Values(asg) + [UserId(userId)]))
  }

  /**
    `update_user` with a given allow-list. `execute` stands for running the
    statement and committing: the row count, or `None` when it raises.
  */
  method UpdateUserWith(allowed: seq<string>, sha256: string -> seq<byte>, userId: int, updates: Dict<string, FieldValue>,
                        execute: (string, seq<Param>) -> Option<int>)
    returns (updated: bool)
    ensures var stmt := UpdateStatement(userId, Assignments(allowed, sha256, updates));
      updated <==> stmt.Some? && var rc := execute(stmt.value.0, stmt.value.1); rc.Some? && rc.value > 0
  {
    var updateFields, values := BuildUpdate(allowed, sha256, updates);
    if updateFields == [] {
      return false;
    }
    values := values + [UserId(userId)];
    var query := "UPDATE Users SET " + Join(", ", updateFields) + " WHERE user_id = ?";
    var rowcount := execute(query, values);
    updated := rowcount.Some? && rowcount.value > 0;
  }

  /** `update_user` as written, with `allowed_fields`. */
  method UpdateUser(sha256: string -> seq<byte>, userId: int, updates: Dict<string, FieldValue>,
                    execute: (string, seq<Param>) -> Option<int>)
    returns (updated: bool)
    ensures var stmt := UpdateStatement(userId, Assignments(AllowedFields, sha256, updates));
      updated <==> stmt.Some? && var rc := execute(stmt.value.0, stmt.value.1); rc.Some? && rc.value > 0
  {
    updated := UpdateUserWith(AllowedFields, sha256, userId, updates, execute);
  }

  /** `update_user` with "password" allowed, so that a new password is stored hashed. */
  method UpdateUserWithPassword(sha256: string -> seq<byte>, userId: int, updates: Dict<string, FieldValue>,
                                execute: (string, seq<Param>) -> Option<int>)
    returns (updated: bool)
    ensures var stmt := UpdateStatement(userId, Assignments(AllowedFieldsWithPassword, sha256, updates));
      updated <==> stmt.Some? && var rc := execute(stmt.value.0, stmt.value.1); rc.Some? && rc.value > 0
  {
    updated := UpdateUserWith(AllowedFieldsWithPassword, sha256, userId, updates, execute);
  }

  /** An item of `updates` whose field is on `allowed_fields`. */
  predicate OnAllowList(item: (string, FieldValue)) {
    item.0 in AllowedFields
  }

  /**
    With `allowed_fields` as written, the assignments are exactly the items
    of `updates` whose field is on the list, with their values, in the
    order of `updates`.
  */
  lemma {:induction false} AssignmentsAllowListed(sha256: string -> seq<byte>, updates: Dict<string, FieldValue>)
    ensures Assignments(AllowedFields, sha256, updates) == Filter(OnAllowList, updates)
    decreases |updates|
  {
    if updates != [] {
      var init, last := updates[..|updates| - 1], updates[|updates| - 1];
      AssignmentsAllowListed(sha256, init);
      FilterSnoc(OnAllowList, init, last);
      assert updates == init + [last];
    }
  }

  /**
    Only allowed fields are set, each from an item of `updates` and in its
    order; a "password" item never contributes.
  */
  lemma UpdateOnlyAllowed(sha256: string -> seq<byte>, updates: Dict<string, FieldValue>)
    ensures forall a :: a in Assignments(AllowedFields, sha256, updates) <==> a in updates && a.0 in AllowedFields
    ensures IsSubsequence(Assignments(AllowedFields, sha256, updates), updates)
    ensures forall a | a in Assignments(AllowedFields, sha256, updates) :: a.0 != "password"
  {
    AssignmentsAllowListed(sha256, updates);
    FilterMembers(OnAllowList, updates);
    FilterIsSubsequence(OnAllowList, updates);
  }

  /** Without an allowed field `update_user` returns False and runs nothing. */
  lemma {:induction false} NoAllowedField(allowed: seq<string>, sha256: string -> seq<byte>, userId: int, updates: Dict<string, FieldValue>)
    requires forall i | 0 <= i < |updates| :: updates[i].0 !in allowed
    ensures Assignments(allowed, sha256, updates) == []
    ensures UpdateStatement(userId, Assignments(allowed, sha256, updates)) == None
    decreases |updates|
  {
    if updates != [] {
      var init := updates[..|updates| - 1];
      assert forall i | 0 <= i < |init| :: init[i] == updates[i];
      NoAllowedField(allowed, sha256, userId, init);
    }
  }

  /**
    As written, a request to change only the password updates nothing: the
    hashing branch needs "password" on the allow-list, and it is not there.
  */
  lemma PasswordIgnored(sha256: string -> seq<byte>, userId: int, pw: string)
    requires pw != ""
    ensures Assignments(AllowedFields, sha256, [("password", Some(pw))]) == []
    ensures UpdateStatement(userId, Assignments(AllowedFields, sha256, [("password", Some(pw))])) == None
  {
    var u: Dict<string, FieldValue> := [("password", Some(pw))];
    assert u[..0] == [];
  }

  /** With "password" allowed, a non-empty new password becomes an assignment of its hash. */
  lemma PasswordAssigned(sha256: string -> seq<byte>, pw: string)
    requires pw != ""
    ensures Assignments(AllowedFieldsWithPassword, sha256, [("password", Some(pw))]) == [("password_hash", Some(HashPassword(sha256, pw)))]
  {
    var u: Dict<string, FieldValue> := [("password", Some(pw))];
    assert u[..0] == [];
    assert "password" in AllowedFieldsWithPassword by {
      assert AllowedFieldsWithPassword[5] == "password";
    }
    assert AssignmentOf(AllowedFieldsWithPassword, sha256, "password", Some(pw)) == [("password_hash", Some(HashPassword(sha256, pw)))];
  }

  /** With "password" allowed, a non-empty new password is stored as its hash. */
  lemma PasswordHashed(sha256: string -> seq<byte>, userId: int, pw: string)
    requires pw != ""
    ensures UpdateStatement(userId, Assignments(AllowedFieldsWithPassword, sha256, [("password", Some(pw))])) ==
      Some(("UPDATE Users SET " + "password_hash = ?" + " WHERE user_id = ?", [Value(Some(HashPassword(sha256, pw))), UserId(userId)]))
  {
    PasswordAssigned(sha256, pw);
    var a := ("password_hash", Some(HashPassword(sha256, pw)));
    SingleStatement(userId, a);
    assert Clause(a) == "password_hash = ?";
  }

  /** The statement for a single assignment. */
  lemma SingleStatement(userId: int, a: (string, FieldValue))
    ensures UpdateStatement(userId, [a]) == Some(("UPDATE Users SET " + Clause(a) + " WHERE user_id = ?", [Value(a.1), UserId(userId)]))
  {
    ClausesSingle(a);
    assert Join(", ", [Clause(a)]) == Clause(a);
    assert Values([a]) + [UserId(userId)] == [Value(a.1), UserId(userId)];
    assert [a] != [];
  }

  /** With "password" allowed, an item that is not a non-empty "password" contributes as it does as written. */
  lemma PasswordOnlyDifference(sha256: string -> seq<byte>, field: string, value: FieldValue)
    requires field != "password"
    ensures AssignmentOf(AllowedFieldsWithPassword, sha256, field, value) == AssignmentOf(AllowedFields, sha256, field, value)
  {
  }

  // ---------------------------------------------------------------------------
  // authenticate_user

  /** A column value of a user row. */
  datatype Field = IntField(i: int) | TextField(s: string) | NullField

  /** The row `get_user_by_email` selects, in its column order. */
  datatype UserRow = UserRow(userId: int, email: string, passwordHash: string, name: string,
                             imageUrl: Field, interests: Field, personId: Field, createdAt: Field)

  /** The dict `get_user_by_email` builds from the row. */
  function UserRecord(row: UserRow): Dict<string, Field> {
    [("user_id", IntField(row.userId)), ("email", TextField(row.email)), ("password_hash", TextField(row.passwordHash)),
     ("name", TextField(row.name)), ("image_url", row.imageUrl), ("interests", row.interests),
     ("person_id", row.personId), ("created_at", row.createdAt)]
  }

  /** The keys of the record `authenticate_user` returns. */
  const PublicKeys: seq<string> := ["user_id", "email", "name", "image_url", "interests", "person_id", "created_at"]

  /**
    `authenticate_user`, given what `get_user_by_email(email)` returned:
    the record with its `password_hash` popped when the password verifies,
    `None` otherwise.
  */
  method AuthenticateUser(sha256: string -> seq<byte>, found: Option<UserRow>, password: string)
    returns (user: Option<Dict<string, Field>>)
    ensures user.Some? <==> found.Some? && VerifyPassword(sha256, password, found.value.passwordHash)
    ensures user.Some? ==> user.value == Pop(UserRecord(found.value), "password_hash")
    ensures user.Some? ==> Keys(user.value) == PublicKeys
  {
    if found.None? {
      return None;
    }
    var record := UserRecord(found.value);
    if !VerifyPassword(sha256, password, found.value.passwordHash) {
      return None;
    }
    record := Pop(record, "password_hash");
    PopRecord(found.value);
    user := Some(record);
  }

  /** Popping `password_hash` removes the third item and keeps the rest in order. */
  lemma PopRecord(row: UserRow)
    ensures var d := UserRecord(row); Pop(d, "password_hash") == [d[0], d[1]] + d[3..]
    ensures Keys(Pop(UserRecord(row), "password_hash")) == PublicKeys
  {
    var d := UserRecord(row);
    assert d[0].0[0] == 'u' && d[1].0[0] == 'e' && d[2].0 == "password_hash";
    assert d[1..][0] == d[1] && d[1..][1..] == d[2..] && d[2..][0] == d[2] && d[2..][1..] == d[3..];
    assert Pop(d[2..], "password_hash") == d[3..];
    assert Pop(d[1..], "password_hash") == [d[1]] + d[3..];
    var p := Pop(d, "password_hash");
    assert p == [d[0]] + ([d[1]] + d[3..]);
    assert p == [d[0], d[1]] + d[3..];
    assert Keys(p) == PublicKeys;
  }

  /** The popped record has no `password_hash` key, and every other column reads as before. */
  lemma AuthenticatedRecord(row: UserRow, k: string)
    ensures Get(Pop(UserRecord(row), "password_hash"), "password_hash") == None
    ensures k != "password_hash" ==> Get(Pop(UserRecord(row), "password_hash"), k) == Get(UserRecord(row), k)
  {
    PopGet(UserRecord(row), "password_hash", k);
    PopGet(UserRecord(row), "password_hash", "password_hash");
  }
}
