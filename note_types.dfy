/** The records of the notes application that the core works on, and the
    categories every new user starts with. */
module NoteTypes {

  /** Row identifiers are generated by the database; only their
      distinctness matters, so they are modelled as serial numbers. */
  type CategoryId = nat

  type UserId = string

  /** A row of the per-user `categories` table. */
  datatype Category = Category(id: CategoryId, name: string, color: string, userId: UserId)

  /** What a caller supplies to create a category. */
  datatype CreateCategoryInput = CreateCategoryInput(name: string, color: string)

  /** The predefined categories, with their colours, in their fixed order. */
  const DefaultCategories: seq<CreateCategoryInput> := [
    CreateCategoryInput("Work", "#FF5733"),
    CreateCategoryInput("Personal", "#33FF57"),
    CreateCategoryInput("Study", "#3357FF"),
    CreateCategoryInput("Important", "#FF33F5"),
    CreateCategoryInput("Ideas", "#33FFF5")
  ]
}
