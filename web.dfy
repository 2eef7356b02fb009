/**
 * What a handler answers: a redirect to another route or a rendered page
 * with the values the template receives.  Template rendering itself is not
 * modelled.
 */
module Web {

  datatype LoginError = UsernameRequired | InvalidPassword

  /** The `message` query parameter of the admin console redirect. */
  datatype Notice =
    | NoNotice
    | AllMappingsDeleted
    | DatabaseReset
    | UserMappingsDeleted(username: string)
    | UserNotFound(username: string)

  datatype Response =
    | RedirectLogin
    | RedirectDashboard
    | RedirectSession
    | RedirectComplete
    | LoginPage(error: LoginError)
      /** the rating page: the term at the cursor, its 1-based position, the
          session length and the progress percentage */
    | TermPage(term: nat, position: nat, total: nat, progress: nat)
    | CompletePage(mappingsCount: nat)
    | RedirectAdmin
    | RedirectAdminConsole(notice: Notice)
    | AdminLoginError
    | RedirectMessages
    | ContactFormError
    | RedirectContactSuccess
    | NotFound
      /** an exception the handler does not catch: HTTP 500 */
    | ServerError
      /** FastAPI's request validation failed before the handler ran: HTTP 422 */
    | Unprocessable

  /** FastAPI reads an empty form field as a field that was not sent: a
      required `Form(...)` parameter is then missing, and an optional one
      takes its default.  A form value here is the submitted string, with
      the empty string standing for both cases. */
  predicate FormMissing(value: string) {
    value == []
  }

  /** The value an optional form parameter receives: its default when the
      field is empty. */
  function FormOr(value: string, default: string): string {
    if FormMissing(value) then default else value
  }
}
