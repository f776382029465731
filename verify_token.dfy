/**
  `verifyAdminToken`, the middleware guarding the administrator routes: the decision it takes
  over the `Authorization` header and the claims the JWT library decodes from it.
*/
module VerifyToken {
  import opened Records

  /** The claims of a decoded token the middleware reads; an absent claim is `None`. */
  datatype Claims = Claims(role: Option<string>, id: Option<string>,
                           adminId: Option<string>, superAdminId: Option<string>)

  /** What `jwt.verify` returns or throws, named by the error's `name`. */
  datatype VerifyOutcome =
    | Payload(isObject: bool, claims: Claims)  // a decoded payload; `isObject` is false for a string or falsy payload
    | TokenExpiredError
    | JsonWebTokenError
    | OtherError

  /** The middleware's outcome: a rejection, or the request passed on with `req.user` and `req.adminId`. */
  datatype AuthResult =
    | Denied(reply: Reply)
    | Admitted(user: Claims, adminId: Option<string>)

  /**
    The characters `String.prototype.trimLeft` removes: the ECMAScript white space (tab,
    vertical tab, form feed, space, no-break space, byte order mark and the Unicode space
    separators) and the line terminators.
  */
  predicate IsJsWhitespace(c: char) {
    c == ' ' || c == '\t' || c == '\n' || c == '\r' || c == '\U{000B}' || c == '\U{000C}'
    || c == '\U{00A0}' || c == '\U{FEFF}' || c == '\U{2028}' || c == '\U{2029}'
    || c == '\U{1680}' || ('\U{2000}' <= c <= '\U{200A}') || c == '\U{202F}' || c == '\U{205F}' || c == '\U{3000}'
  }

  function TrimLeft(s: string): (r: string)
    ensures |r| <= |s| && r == s[|s| - |r|..]
    ensures r == [] || !IsJsWhitespace(r[0])
    ensures forall k :: 0 <= k < |s| - |r| ==> IsJsWhitespace(s[k])
  {
    if s != [] && IsJsWhitespace(s[0]) then TrimLeft(s[1..]) else s
  }

  const BearerPrefix: string := "Bearer "

  /** The token handed to `jwt.verify`: the header without a leading `"Bearer "` and the blanks after it. */
  function TokenOf(header: string): (token: string)
  {
    if |header| >= |BearerPrefix| && header[..|BearerPrefix|] == BearerPrefix
    then TrimLeft(header[|BearerPrefix|..])
    else header
  }

  /** Whether decoded claims are let through: a role of "admin" or "superadmin", or no role but some id. */
  predicate Accepted(c: Claims) {
    if Truthy(c.role) then c.role.value == "admin" || c.role.value == "superadmin"
    else Truthy(c.id) || Truthy(c.adminId) || Truthy(c.superAdminId)
  }

  /**
    `verifyAdminToken`: 401 without a header; otherwise the header is stripped of its
    `Bearer ` prefix and verified by `verify` (the JWT library with the server's secret).
  */
  function VerifyAdminToken(header: Option<string>, verify: string -> VerifyOutcome): (r: AuthResult)
    ensures !Truthy(header) <==> r == Denied(Reply(401, "Access denied. No token provided."))
    ensures r.Admitted? ==> Truthy(header) && verify(TokenOf(header.value)) == Payload(true, r.user)
    ensures Truthy(header) && verify(TokenOf(header.value)).Payload? ==>
              var p := verify(TokenOf(header.value));
              (r.Admitted? <==> p.isObject && Accepted(p.claims))
    ensures r.Admitted? ==> r.adminId == (if Truthy(r.user.role) || Truthy(r.user.id) then r.user.id else None)
  {
    if !Truthy(header) then Denied(Reply(401, "Access denied. No token provided."))
    else
      match verify(TokenOf(header.value))
      case TokenExpiredError => Denied(Reply(401, "Token expired. Please login again."))
      case JsonWebTokenError => Denied(Reply(401, "Invalid token. Please login again."))
      case OtherError => Denied(Reply(400, "Invalid token."))
      case Payload(isObject, decoded) =>
        if !isObject then Denied(Reply(403, "Access denied. Invalid token format."))
        else if !Truthy(decoded.role) then
          if Truthy(decoded.id) then Admitted(decoded, decoded.id)
          else if Truthy(decoded.adminId) || Truthy(decoded.superAdminId) then Admitted(decoded, None)
          else Denied(Reply(403, "Access denied. Role not specified in token."))
        else if decoded.role.value != "admin" && decoded.role.value != "superadmin" then
          Denied(Reply(403, "Access denied. Not an admin."))
        else Admitted(decoded, decoded.id)
  }

  /**
    The rejections by cause: a failed verification answers 401 when the token expired or is
    malformed and 400 otherwise; decoded claims are rejected with 403 for a non-object
    payload, a missing role without any id, or a role other than the two admin roles.
  */
  lemma RejectionStatus(header: string, verify: string -> VerifyOutcome)
    requires header != ""
    ensures var r := VerifyAdminToken(Some(header), verify);
            var outcome := verify(TokenOf(header));
            && (outcome == TokenExpiredError ==> r == Denied(Reply(401, "Token expired. Please login again.")))
            && (outcome == JsonWebTokenError ==> r == Denied(Reply(401, "Invalid token. Please login again.")))
            && (outcome == OtherError ==> r == Denied(Reply(400, "Invalid token.")))
            && (outcome.Payload? && !outcome.isObject ==> r == Denied(Reply(403, "Access denied. Invalid token format.")))
            && (outcome.Payload? && outcome.isObject && !Accepted(outcome.claims) ==>
                  r.Denied? && r.reply.status == 403
                  && (Truthy(outcome.claims.role) <==> r.reply.message == "Access denied. Not an admin."))
  {
  }

  /** A `Bearer ` header hands `verify` the token itself, and a bare token is handed over as it is. */
  lemma {:induction false} BearerStripped(token: string, blanks: string)
    requires forall k :: 0 <= k < |blanks| ==> IsJsWhitespace(blanks[k])
    requires token == [] || !IsJsWhitespace(token[0])
    ensures TokenOf(BearerPrefix + blanks + token) == token
    ensures |token| < |BearerPrefix| || token[..|BearerPrefix|] != BearerPrefix ==> TokenOf(token) == token
  {
    var header := BearerPrefix + blanks + token;
    assert header[..|BearerPrefix|] == BearerPrefix;
    assert header[|BearerPrefix|..] == blanks + token;
    TrimLeftBlanks(blanks, token);
  }

  lemma {:induction false} TrimLeftBlanks(blanks: string, token: string)
    requires forall k :: 0 <= k < |blanks| ==> IsJsWhitespace(blanks[k])
    requires token == [] || !IsJsWhitespace(token[0])
    ensures TrimLeft(blanks + token) == token
  {
    if blanks != [] {
      assert (blanks + token)[1..] == blanks[1..] + token;
      TrimLeftBlanks(blanks[1..], token);
    } else {
      assert blanks + token == token;
    }
  }

  /**
    The role decides alone once present: a token with role "user" is refused even though the
    same id without a role is let through as a pre-role administrator token.
  */
  lemma RoleOverridesLegacyId(id: string, verify: string -> VerifyOutcome)
    requires id != ""
    requires verify("legacy") == Payload(true, Claims(None, Some(id), None, None))
    requires verify("user") == Payload(true, Claims(Some("user"), Some(id), None, None))
    ensures VerifyAdminToken(Some("legacy"), verify) == Admitted(Claims(None, Some(id), None, None), Some(id))
    ensures VerifyAdminToken(Some("user"), verify) == Denied(Reply(403, "Access denied. Not an admin."))
  {
    assert TokenOf("legacy") == "legacy";
    assert TokenOf("user") == "user";
  }
}
