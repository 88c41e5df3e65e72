/**
 The `Book` entity of the library application, as the controller binds it:
 exactly the five fields `IdBook`, `NameBook`, `Number`, `NhaXuatBan` (publisher)
 and `Year`. `IdBook` is the primary key of the `Book` table and the controller
 compares it against `int` route parameters, so it is an `int` here.
 */
module Books {

  datatype Option<T> = None | Some(value: T)

  datatype Book = Book(
    idBook: int,
    nameBook: string,
    number: int,
    nhaXuatBan: string,
    year: int
  )
}
