/** The credential service: a table of rows keyed by id, with add, list,
    get (optionally revealing the secret), update and delete. */
module Service {
  import opened Results
  import opened SecretCodec
  import opened Models

  /** A finite non-empty set of ids has a least element. */
  lemma {:induction false} LeastExists(s: set<int>)
    requires s != {}
    ensures exists m :: m in s && forall x :: x in s ==> m <= x
    decreases |s|
  {
    // a non-empty set has a member
    if forall x :: x !in s { assert false; }
    var a :| a in s;
    if s == {a} {
      assert forall z :: z in s ==> a <= z;
    } else {
      var rest := s - {a};
      assert |rest| < |s|;
      LeastExists(rest);
      var b :| b in rest && forall z :: z in rest ==> b <= z;
      if a < b {
        forall z | z in s ensures a <= z { if z != a { assert z in rest; } }
      } else {
        forall z | z in s ensures b <= z { if z != a { assert z in rest; } }
        assert b in s;
      }
    }
  }

  /** The least id of a non-empty set. */
  function Least(s: set<int>): (m: int)
    requires s != {}
    ensures m in s && forall x :: x in s ==> m <= x
  {
    LeastExists(s);
    var m :| m in s && forall x :: x in s ==> m <= x;
    m
  }

  /** rows holds every row of t exactly once, in ascending id order. */
  ghost predicate InIdOrder(rows: seq<PasswordRow>, t: map<int, PasswordRow>) {
    && |rows| == |t|
    && (forall i :: 0 <= i < |rows| ==> rows[i].id in t && t[rows[i].id] == rows[i])
    && (forall k :: k in t ==> t[k] in rows)
    && (forall i, j :: 0 <= i < j < |rows| ==> rows[i].id < rows[j].id)
  }

  /** The row with the least id in front of the others in id order is the
      whole table in id order. */
  lemma InIdOrderCons(m: int, t: map<int, PasswordRow>, rest: seq<PasswordRow>)
    requires m in t && t[m].id == m && forall k :: k in t ==> m <= k
    requires InIdOrder(rest, t - {m})
    ensures InIdOrder([t[m]] + rest, t)
  {
    var rows := [t[m]] + rest;
    var t' := t - {m};
    assert |t'| == |t| - 1;
    ConsFromTable(m, t, rest);
    ConsComplete(m, t, rest);
    ConsAscending(m, t, rest);
  }

  /** Every listed row is the table's row under its own id. */
  lemma ConsFromTable(m: int, t: map<int, PasswordRow>, rest: seq<PasswordRow>)
    requires m in t && t[m].id == m
    requires forall i :: 0 <= i < |rest| ==> rest[i].id in t - {m} && (t - {m})[rest[i].id] == rest[i]
    ensures var rows := [t[m]] + rest;
            forall i :: 0 <= i < |rows| ==> rows[i].id in t && t[rows[i].id] == rows[i]
  {
    var rows := [t[m]] + rest;
    forall i | 0 <= i < |rows| ensures rows[i].id in t && t[rows[i].id] == rows[i] {
      if i > 0 { assert rows[i] == rest[i - 1]; }
    }
  }

  /** Every row of the table is listed. */
  lemma ConsComplete(m: int, t: map<int, PasswordRow>, rest: seq<PasswordRow>)
    requires m in t
    requires forall k :: k in t - {m} ==> (t - {m})[k] in rest
    ensures forall k :: k in t ==> t[k] in [t[m]] + rest
  {
    var rows := [t[m]] + rest;
    forall k | k in t ensures t[k] in rows {
      if k != m {
        assert k in t - {m};
        var i :| 0 <= i < |rest| && rest[i] == t[k];
        assert rows[i + 1] == t[k];
      }
    }
  }

  /** The listed ids ascend strictly. */
  lemma ConsAscending(m: int, t: map<int, PasswordRow>, rest: seq<PasswordRow>)
    requires m in t && t[m].id == m && forall k :: k in t ==> m <= k
    requires forall i :: 0 <= i < |rest| ==> rest[i].id in t - {m}
    requires forall i, j :: 0 <= i < j < |rest| ==> rest[i].id < rest[j].id
    ensures var rows := [t[m]] + rest;
            forall i, j :: 0 <= i < j < |rows| ==> rows[i].id < rows[j].id
  {
    var rows := [t[m]] + rest;
    forall i, j | 0 <= i < j < |rows| ensures rows[i].id < rows[j].id {
      if i > 0 {
        assert rows[i] == rest[i - 1] && rows[j] == rest[j - 1];
      } else {
        assert rows[j] == rest[j - 1] && rest[j - 1].id in t - {m};
      }
    }
  }

  /** All rows of a table keyed by their ids, in ascending id order: the
      order a scan of the table by primary key yields. */
  function Listing(t: map<int, PasswordRow>): (rows: seq<PasswordRow>)
    requires forall k :: k in t ==> t[k].id == k
    ensures InIdOrder(rows, t)
    decreases |t|
  {
    if |t| == 0 then []
    else
      var m := Least(t.Keys);
      var rest := Listing(t - {m});
      InIdOrderCons(m, t, rest);
      [t[m]] + rest
  }

  class PasswordService {
    /** The persisted table. */
    var table: map<int, PasswordRow>
    /** The id the store assigns to the next inserted row. */
    var nextId: int

    /** Every row sits under its own id, and ids below the next one. */
    ghost predicate Valid()
      reads this
    {
      && 1 <= nextId
      && forall k :: k in table ==> 1 <= k < nextId && table[k].id == k
    }

    /** Every stored secret decrypts. Add and Update keep this. */
    predicate SecretsDecrypt()
      reads this
    {
      forall k :: k in table ==> Decrypt(table[k].encryptedPassword).Success?
    }

    /** A service over an empty store. */
    constructor ()
      ensures Valid() && SecretsDecrypt()
      ensures table == map[] && nextId == 1
    {
      table := map[];
      nextId := 1;
    }

    /** All stored rows, secrets left encrypted, in ascending id order. */
    method List() returns (rows: seq<PasswordRow>)
      requires Valid()
      ensures |rows| == |table|
      ensures forall i :: 0 <= i < |rows| ==> rows[i].id in table && table[rows[i].id] == rows[i]
      ensures forall k :: k in table ==> table[k] in rows
      ensures forall i, j :: 0 <= i < j < |rows| ==> rows[i].id < rows[j].id
    {
      rows := Listing(table);
    }

    /** The row under id as a new entity; with reveal, its secret field
        holds the decrypted secret. The table is not changed. */
    method GetById(id: int, includeDecrypted: bool) returns (r: Result<Password?>)
      requires Valid()
      ensures id !in table ==> r == Success(null)
      ensures id in table && !includeDecrypted ==>
                r.Success? && r.value != null && fresh(r.value) && r.value.Row() == table[id]
      ensures id in table && includeDecrypted ==>
                match Decrypt(table[id].encryptedPassword)
                case Success(plain) =>
                  r.Success? && r.value != null && fresh(r.value) &&
                  r.value.Row() == table[id].(encryptedPassword := plain)
                case Failure(e) => r == Failure(e)
      ensures SecretsDecrypt() ==> r.Success?
    {
      if id !in table {
        return Success(null);
      }
      var password := new Password.FromRow(table[id]);
      if includeDecrypted {
        var decrypted := Decrypt(password.encryptedPassword);
        if decrypted.Failure? {
          return Failure(decrypted.error);
        }
        password.encryptedPassword := decrypted.value;
      }
      return Success(password);
    }

    /** Encrypts the caller's secret in place, stores the entity under a new
        id and returns the caller's own object. */
    method Add(password: Password) returns (r: Password)
      requires Valid()
      requires password.id == 0
      modifies this, password
      ensures Valid()
      ensures r == password
      ensures password.encryptedPassword == Encrypt(old(password.encryptedPassword))
      ensures password.category == old(password.category) && password.app == old(password.app)
      ensures password.userName == old(password.userName)
      ensures password.id == old(nextId) && password.id !in old(table) && nextId == old(nextId) + 1
      ensures table == old(table)[password.id := password.Row()]
      ensures |table| == |old(table)| + 1
      ensures old(SecretsDecrypt()) ==> SecretsDecrypt()
    {
      password.encryptedPassword := Encrypt(password.encryptedPassword);
      password.id := nextId;
      table := table[nextId := password.Row()];
      nextId := nextId + 1;
      r := password;
    }

    /** Overwrites the four fields of the row under id, the secret
        re-encrypted, and returns the updated row as a new entity; an unknown
        id gives null and changes nothing. */
    method Update(id: int, password: Password) returns (r: Password?)
      requires Valid()
      modifies this
      ensures Valid() && nextId == old(nextId)
      ensures id !in old(table) ==> r == null && table == old(table)
      ensures id in old(table) ==>
                && r != null && fresh(r)
                && table == old(table)[id := PasswordRow(id, password.category, password.app,
                                                         password.userName, Encrypt(password.encryptedPassword))]
                && r.Row() == table[id]
      ensures old(SecretsDecrypt()) ==> SecretsDecrypt()
    {
      if id !in table {
        return null;
      }
      var existing := new Password.FromRow(table[id]);
      existing.category := password.category;
      existing.app := password.app;
      existing.userName := password.userName;
      existing.encryptedPassword := Encrypt(password.encryptedPassword);
      table := table[id := existing.Row()];
      r := existing;
    }

    /** Removes the row under id; reports whether there was one. */
    method Delete(id: int) returns (deleted: bool)
      requires Valid()
      modifies this
      ensures Valid() && nextId == old(nextId)
      ensures deleted <==> id in old(table)
      ensures table == old(table) - {id}
      ensures old(SecretsDecrypt()) ==> SecretsDecrypt()
    {
      if id !in table {
        return false;
      }
      table := table - {id};
      return true;
    }
  }
}
