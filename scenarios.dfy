/** Call sequences on a service over an empty store, one for each of the
    repository's service tests, each stating what the model guarantees for
    that sequence. */
module ServiceScenarios {
  import opened Results
  import opened Ascii
  import opened SecretCodec
  import opened Models
  import opened Service

  /** Adding a secret and reading it back with reveal gives the secret. */
  method AddThenReveal(plain: string) returns (revealed: Result<string>)
    requires IsAscii(plain)
    ensures revealed == Success(plain)
  {
    var service := new PasswordService();
    var password := new Password("category1", "app1", "user1", plain);
    var created := service.Add(password);
    RoundTrip(plain);
    var found := service.GetById(created.id, true);
    revealed := if found.Success? && found.value != null then Success(found.value.encryptedPassword)
                else Failure(MalformedBase64);
  }

  /** The object Add returns is the caller's own, now holding the stored
      form; reading without reveal shows that same stored form. */
  method AddEchoesStoredForm() returns (same: bool, echoed: string, shown: string)
    ensures same && echoed == "bXlQYXNzd29yZA==" && shown == echoed
  {
    var service := new PasswordService();
    var password := new Password("category1", "app1", "user1", "myPassword");
    var created := service.Add(password);
    EncryptMyPassword();
    same, echoed := created == password, password.encryptedPassword;
    var found := service.GetById(created.id, false);
    shown := if found.Success? && found.value != null then found.value.encryptedPassword else "";
  }

  /** A listing of a table holding ids 1 and 2 is those two rows in that
      order. */
  lemma ListingOfTwo(t: map<int, PasswordRow>, rows: seq<PasswordRow>, first: PasswordRow, second: PasswordRow)
    requires first.id == 1 && second.id == 2 && t == map[1 := first, 2 := second]
    requires |rows| == |t|
    requires forall i :: 0 <= i < |rows| ==> rows[i].id in t && t[rows[i].id] == rows[i]
    requires forall i, j :: 0 <= i < j < |rows| ==> rows[i].id < rows[j].id
    ensures rows == [first, second]
  {
    assert |t| == 2 by { assert t.Keys == {1, 2}; }
    assert rows[0].id < rows[1].id;
  }

  /** Two adds, then a listing of exactly the two stored rows, in some
      order, each secret in its stored form. */
  method ListAfterTwoAdds(secret1: string, secret2: string) returns (rows: seq<PasswordRow>)
    ensures |rows| == 2
    ensures multiset(rows) == multiset{PasswordRow(1, "category1", "app1", "user1", Encrypt(secret1)),
                                       PasswordRow(2, "category2", "app2", "user2", Encrypt(secret2))}
  {
    var service := new PasswordService();
    var first := new Password("category1", "app1", "user1", secret1);
    var second := new Password("category2", "app2", "user2", secret2);
    var a := service.Add(first);
    var b := service.Add(second);
    rows := service.List();
    ListingOfTwo(service.table, rows, a.Row(), b.Row());
  }

  /** Storing a secret that is already in stored form, then revealing it,
      gives the stored form; decrypting that once more gives the secret. */
  method RevealOfStoredFormSecret(plain: string) returns (userName: string, twice: Result<string>)
    requires IsAscii(plain)
    ensures userName == "user1" && twice == Success(plain)
  {
    var service := new PasswordService();
    var password := new Password("category1", "app1", "user1", Encrypt(plain));
    var created := service.Add(password);
    DecryptDoubleEncrypt(plain);
    RoundTrip(plain);
    var found := service.GetById(created.id, true);
    if found.Success? && found.value != null {
      userName, twice := found.value.userName, Decrypt(found.value.encryptedPassword);
    } else {
      userName, twice := "", Failure(MalformedBase64);
    }
  }

  /** Update overwrites the fields; revealing afterwards gives the new
      secret, not the old one. */
  method UpdateThenReveal(oldPlain: string, newPlain: string) returns (userName: string, revealed: Result<string>)
    requires IsAscii(newPlain)
    ensures userName == "user1_updated" && revealed == Success(newPlain)
  {
    var service := new PasswordService();
    var password := new Password("category1", "app1", "user1", oldPlain);
    var created := service.Add(password);
    var replacement := new Password("category1_updated", "app1_updated", "user1_updated", newPlain);
    var updated := service.Update(created.id, replacement);
    RoundTrip(newPlain);
    var found := service.GetById(created.id, true);
    userName := if updated != null then updated.userName else "";
    revealed := if found.Success? && found.value != null then Success(found.value.encryptedPassword)
                else Failure(MalformedBase64);
  }

  /** Deleting an added row succeeds and the row is gone; deleting an id
      never created fails. */
  method DeleteThenGet(plain: string) returns (deleted: bool, after: Result<Password?>, deletedUnknown: bool)
    ensures deleted && after == Success(null) && !deletedUnknown
  {
    var service := new PasswordService();
    var password := new Password("category1", "app1", "user1", plain);
    var created := service.Add(password);
    deleted := service.Delete(created.id);
    after := service.GetById(created.id, false);
    deletedUnknown := service.Delete(999);
  }
}
