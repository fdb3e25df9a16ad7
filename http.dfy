/** HTTP responses: a status code and a JSON body. Each body variant is one shape of JSON
    object the handlers send; the comment gives its keys. */
module Http {
  import opened Common
  import opened StudentModel
  import opened Users

  /** The `errors` key of a translated error: the field messages of a ValidationError, or
      the `errors` property of any other error, copied through as it was. */
  datatype ErrorList = Messages(messages: seq<string>) | Echoed(items: seq<FieldError>)

  datatype Body =
    /** `{ success: false, error }` */
    | ErrorField(error: string)
    /** `{ success: false, message }` */
    | MessageField(message: string)
    /** `{ message }` */
    | BareMessage(message: string)
    /** `{ success: false, error, message }`: a handler's own 500 reply */
    | Failure(error: string, detail: string)
    /** `{ success: false, error, stack?, errors? }`: the error translator's reply */
    | Translated(error: string, stack: Option<string>, errors: Option<ErrorList>)
    /** `{ success: true, data: student }` */
    | StudentData(student: Student)
    /** `[student, ...]` */
    | StudentArray(students: seq<Student>)
    /** `{ success: true, data: {}, message }` */
    | Deleted(message: string)
    /** `{ success: true, data: { id, email, name, role, token } }` */
    | LoginData(id: Id, email: string, name: string, role: string, token: string)
    /** `{ success: true, id, email, role, token, message }` */
    | Registered(id: Id, email: string, role: string, token: string, message: string)
    /** `{ success: true, data: { id, name, email, role } }` */
    | Profile(id: Id, name: string, email: string, role: string)
    /** a user document */
    | UserDoc(user: User)
    /** `[user, ...]` */
    | UserArray(users: seq<User>)

  datatype Response = Response(status: int, body: Body)

  /** `process.env.NODE_ENV === 'development' ? error.message : 'Internal server error'` */
  function Detail(development: bool, message: string): string {
    if development then message else "Internal server error"
  }
}
