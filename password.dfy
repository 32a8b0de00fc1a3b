/** The credential entity: an id assigned by the store and four required
    text fields, the last of which holds the secret. */
module Models {

  /** A persisted row: the values of one entity as the store keeps them. */
  datatype PasswordRow = PasswordRow(
    id: int,
    category: string,
    app: string,
    userName: string,
    encryptedPassword: string)

  /** The mutable entity object handed to and returned by the service. The
      four text fields are required, so they are never null here. */
  class Password {
    var id: int
    var category: string
    var app: string
    var userName: string
    var encryptedPassword: string

    /** An entity built by the caller: no id yet (0, the default). */
    constructor (category: string, app: string, userName: string, encryptedPassword: string)
      ensures Row() == PasswordRow(0, category, app, userName, encryptedPassword)
    {
      this.id := 0;
      this.category := category;
      this.app := app;
      this.userName := userName;
      this.encryptedPassword := encryptedPassword;
    }

    /** An entity materialised from a stored row. */
    constructor FromRow(row: PasswordRow)
      ensures Row() == row
    {
      this.id := row.id;
      this.category := row.category;
      this.app := row.app;
      this.userName := row.userName;
      this.encryptedPassword := row.encryptedPassword;
    }

    /** The entity's current field values. */
    function Row(): PasswordRow
      reads this
    {
      PasswordRow(id, category, app, userName, encryptedPassword)
    }
  }
}
