/** The JSON responses of the API: a status code and a body. */
module Http {
  import opened Wrappers
  import opened Accounts

  const StatusOk: nat := 200
  const StatusUnauthorized: nat := 401
  const StatusNotFound: nat := 404
  const StatusUnprocessable: nat := 422

  /** The JSON object of one credential: exactly these seven keys. */
  datatype CredentialJson = CredentialJson(id: nat, title: Option<string>, username: Option<string>,
                                           password: Option<string>, url: Option<string>,
                                           createdAt: int, updatedAt: int)

  datatype Body =
    | ErrorBody(error: string)
    | MessageBody(message: string)
    | LoginBody(token: string, userId: UserId, email: string)
    | CredentialsBody(credentials: seq<CredentialJson>)
    | CredentialBody(credential: CredentialJson)

  datatype Response = Response(status: nat, body: Body)
}
