/** The record types the normalisers read (src/api/src/create_book/models.py). */
module Models {

  /** One chapter of a story: its numeric id and its title. */
  datatype Part = Part(id: int, title: string)
}
