/** api/permissions.py: `NotMeOrReadOnly.has_permission`, a decision over the
    request's full path, its method and whether its user is authenticated. */
module Permissions {

  /** The path of the current-user endpoint that anonymous requests may not reach. */
  const MePath: string := "/api/users/me/"

  /** Django REST framework's SAFE_METHODS. */
  const SafeMethods: seq<string> := ["GET", "HEAD", "OPTIONS"]

  function HasPermission(fullPath: string, httpMethod: string, authenticated: bool): (allowed: bool)
    ensures !authenticated && fullPath == MePath ==> !allowed
    ensures authenticated ==> allowed
    ensures !authenticated && fullPath != MePath ==> (allowed <==> httpMethod in SafeMethods)
  {
    if fullPath == MePath && !authenticated then false
    else httpMethod in SafeMethods || authenticated
  }

  /** Every denial is of an anonymous request, and a denied request elsewhere
      than the current-user endpoint is a write. */
  lemma DenialsAreAnonymous(fullPath: string, httpMethod: string, authenticated: bool)
    requires !HasPermission(fullPath, httpMethod, authenticated)
    ensures !authenticated
    ensures fullPath != MePath ==> httpMethod !in SafeMethods
  {
  }

  /** A safe, anonymous request is allowed everywhere but the current-user endpoint. */
  lemma AnonymousReadsAllowedOutsideMe(fullPath: string)
    requires fullPath != MePath
    ensures HasPermission(fullPath, "GET", false)
    ensures HasPermission(fullPath, "HEAD", false)
    ensures HasPermission(fullPath, "OPTIONS", false)
    ensures !HasPermission(fullPath, "POST", false)
    ensures !HasPermission(MePath, "GET", false)
  {
  }
}
