/** The two record types kept in the store, one table each. */
module Records {
  import opened Options

  /** A row of the `tasks` table; `createdAt` and `updatedAt` are millisecond timestamps. */
  datatype Task = Task(
    id: string,
    title: string,
    description: string,
    completed: bool,
    createdAt: int,
    updatedAt: int)

  /** A row of the `users` table; the avatar URL is optional. */
  datatype User = User(
    id: string,
    name: string,
    email: string,
    avatar: Option<string>,
    createdAt: int)
}
