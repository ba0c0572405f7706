/** The authentication gate (src/server.cpp, lines 134-149): one path is
    protected by one fixed bearer token. */
module Auth {

  const ValidToken: string := "secret-token-123"
  const ProtectedPath: string := "/users/me"

  /** The request carries exactly `Authorization: Bearer secret-token-123`
      (key and value compared byte for byte). */
  predicate Authenticated(headers: map<string, string>) {
    "Authorization" in headers && headers["Authorization"] == "Bearer " + ValidToken
  }

  /** The gate turns the request away: it asks for the protected path
      without the token.  Every other path is open. */
  predicate Denied(path: string, headers: map<string, string>) {
    path == ProtectedPath && !Authenticated(headers)
  }
}
