/** Value types shared by the validation rules and the request handlers. */
module Common {

  datatype Option<T> = None | Some(value: T)

  datatype Result<T, E> = Ok(value: T) | Err(error: E)

  /** One field of a JSON request body as a handler reads it: `undefined` when
      the key is missing, JSON `null`, or a string. */
  datatype Input = Absent | Null | Str(s: string)

  /** An error response: the HTTP status code and the `error` string of its JSON body. */
  datatype HttpError = HttpError(code: int, message: string)

  /** Body of POST /auth/register. */
  datatype RegistrationBody = RegistrationBody(name: Input, email: Input, password: Input)

  /** Body of POST /auth/login. */
  datatype LoginBody = LoginBody(email: Input, password: Input)

  /** Body of POST /tasks. */
  datatype NewTaskBody = NewTaskBody(title: Input, description: Input, dueDate: Input)

  /** Body of PUT /tasks/:id: every field may be left out. */
  datatype TaskPatch = TaskPatch(title: Input, description: Input, status: Input, dueDate: Input)
}
