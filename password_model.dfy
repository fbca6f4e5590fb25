/** The response record shared by every validation path (com.password.model). */
module PasswordModel {
  import opened Wrappers

  /** PasswordResponseStatus. */
  datatype Status = Valid | Invalid | Error

  /** PasswordResponse: status, human-readable message and the password it is about (null allowed). */
  datatype PasswordResponse = PasswordResponse(status: Status, message: string, password: Option<string>)
}
