/**
 * `validatePrivyAuth`: the request counts as authenticated when it carries a
 * non-empty `x-wallet-address` header, whose lowercased value is the caller's
 * wallet.  Reading the header is left to the caller: the header value is the
 * parameter.
 */
module PrivyAuth {
  import opened Wrappers
  import Text

  datatype AuthResult = AuthResult(authenticated: bool, walletAddress: Option<string>)

  function ValidatePrivyAuth(header: Option<string>): (r: AuthResult)
    ensures r.authenticated <==> Truthy(header)
    ensures r.walletAddress.None? <==> !r.authenticated
    ensures r.authenticated ==> r.walletAddress == Some(Text.Lower(header.value))
    // the address is already in canonical form: lowering it again changes nothing
    ensures r.walletAddress.Some? ==> Text.Lower(r.walletAddress.value) == r.walletAddress.value
    // so the routes' second test, `!authResult.walletAddress`, never fires on its own
    ensures r.authenticated ==> Truthy(r.walletAddress)
  {
    if Truthy(header) then
      Text.LowerIdempotent(header.value);
      Text.LowerAt(header.value);
      AuthResult(true, Some(Text.Lower(header.value)))
    else
      AuthResult(false, None)
  }

  /** Headers that differ only in letter case authenticate the same wallet. */
  lemma CaseInsensitive(h1: string, h2: string)
    requires Text.SameIgnoringCase(h1, h2)
    ensures ValidatePrivyAuth(Some(h1)) == ValidatePrivyAuth(Some(h2))
  {
    Text.LowerAt(h1);
    Text.LowerAt(h2);
  }
}
