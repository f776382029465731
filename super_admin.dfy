/**
  The super-administrator account routes: the profile update, the e-mailed verification codes
  that guard a password or e-mail change, and the forgotten-password reset tokens. Hashing,
  the random draws, the clock and the mail service are parameters.
*/
module SuperAdmin {
  import opened Records
  import opened Decimal

  /** A `superAdmins` document; `email` is `None` once an e-mail change without `newEmail` stored `null`. */
  datatype Admin = Admin(id: string, username: string, email: Option<string>, passwordHash: string)

  /** A `verificationCodes` document; `kind` is the request's `type`, `None` when it was absent. */
  datatype VerificationCode = VerificationCode(userId: string, kind: Option<string>, code: string,
                                               expiresAt: int, newEmail: Option<string>)

  /** A `passwordResets` document. */
  datatype ResetToken = ResetToken(userId: string, token: string, expiresAt: int)

  /** Verification codes live 15 minutes, reset tokens 30 minutes (milliseconds). */
  const CodeWindow: int := 15 * 60 * 1000
  const ResetWindow: int := 30 * 60 * 1000

  /** The fields of one `$set`: an outer `None` leaves the field alone. */
  datatype Patch = Patch(username: Option<string>, email: Option<Option<string>>, passwordHash: Option<string>)

  function Apply(a: Admin, p: Patch): Admin {
    Admin(a.id,
          if p.username.Some? then p.username.value else a.username,
          if p.email.Some? then p.email.value else a.email,
          if p.passwordHash.Some? then p.passwordHash.value else a.passwordHash)
  }

  /** `updateOne({ _id: id }, { $set: … })`: the first administrator with the id gets the patch. */
  function Patched(admins: seq<Admin>, id: string, p: Patch): (r: seq<Admin>)
    ensures |r| == |admins|
  {
    if admins == [] then []
    else if admins[0].id == id then [Apply(admins[0], p)] + admins[1..]
    else [admins[0]] + Patched(admins[1..], id, p)
  }

  /**
    With unique ids, an update rewrites exactly the administrator with the id, and in it
    exactly the fields the patch sets; an unknown id changes nothing.
  */
  lemma {:induction false} PatchedTouchesOnlyTarget(admins: seq<Admin>, id: string, p: Patch)
    requires forall i, j :: 0 <= i < j < |admins| ==> admins[i].id != admins[j].id
    ensures forall k :: 0 <= k < |admins| && admins[k].id != id ==> Patched(admins, id, p)[k] == admins[k]
    ensures forall k :: 0 <= k < |admins| && admins[k].id == id ==>
              var b := Patched(admins, id, p)[k];
              && b.id == id
              && (p.username.None? ==> b.username == admins[k].username)
              && (p.username.Some? ==> b.username == p.username.value)
              && (p.email.None? ==> b.email == admins[k].email)
              && (p.email.Some? ==> b.email == p.email.value)
              && (p.passwordHash.None? ==> b.passwordHash == admins[k].passwordHash)
              && (p.passwordHash.Some? ==> b.passwordHash == p.passwordHash.value)
  {
    if admins != [] && admins[0].id != id {
      PatchedTouchesOnlyTarget(admins[1..], id, p);
      assert forall k :: 1 <= k < |admins| ==> Patched(admins, id, p)[k] == Patched(admins[1..], id, p)[k - 1];
    }
  }

  /** The `$set` of PUT `/profile`: each truthy field, the password as its hash. */
  function ProfilePatch(username: Option<string>, email: Option<string>, password: Option<string>,
                        hash: string -> string): (p: Patch)
    ensures p.username.Some? <==> Truthy(username)
    ensures p.email.Some? <==> Truthy(email)
    ensures p.passwordHash.Some? <==> Truthy(password)
    ensures Truthy(username) ==> p.username.value == username.value
    ensures Truthy(email) ==> p.email.value == email
    ensures Truthy(password) ==> p.passwordHash.value == hash(password.value)
  {
    Patch(if Truthy(username) then username else None,
          if Truthy(email) then Some(email) else None,
          if Truthy(password) then Some(hash(password.value)) else None)
  }

  /** A code record the `verify-update` lookup accepts: same user, type and code, and not yet expired. */
  predicate CodeMatches(c: VerificationCode, userId: string, kind: Option<string>, code: Option<string>, now: int) {
    c.userId == userId && c.kind == kind && code == Some(c.code) && c.expiresAt > now
  }

  /** The first record the lookup accepts, searching from `from`. */
  function FindCode(codes: seq<VerificationCode>, userId: string, kind: Option<string>, code: Option<string>,
                    now: int, from: nat): (k: Option<nat>)
    requires from <= |codes|
    ensures k.None? <==> forall j :: from <= j < |codes| ==> !CodeMatches(codes[j], userId, kind, code, now)
    ensures k.Some? ==> from <= k.value < |codes| && CodeMatches(codes[k.value], userId, kind, code, now)
                        && forall j :: from <= j < k.value ==> !CodeMatches(codes[j], userId, kind, code, now)
    decreases |codes| - from
  {
    if from == |codes| then None
    else if CodeMatches(codes[from], userId, kind, code, now) then Some(from)
    else FindCode(codes, userId, kind, code, now, from + 1)
  }

  /** The first reset record with the token that has not expired, searching from `from`. */
  function FindReset(resets: seq<ResetToken>, token: Option<string>, now: int, from: nat): (k: Option<nat>)
    requires from <= |resets|
    ensures k.None? <==> forall j :: from <= j < |resets| ==> !(token == Some(resets[j].token) && resets[j].expiresAt > now)
    ensures k.Some? ==> from <= k.value < |resets| && token == Some(resets[k.value].token) && resets[k.value].expiresAt > now
                        && forall j :: from <= j < k.value ==> !(token == Some(resets[j].token) && resets[j].expiresAt > now)
    decreases |resets| - from
  {
    if from == |resets| then None
    else if token == Some(resets[from].token) && resets[from].expiresAt > now then Some(from)
    else FindReset(resets, token, now, from + 1)
  }

  /**
    `findOne({ email })` over the administrators. A missing address is sent as `null`, which
    matches an administrator without one.
  */
  function FindByEmail(admins: seq<Admin>, email: Option<string>): (r: Option<Admin>)
    ensures r.None? <==> forall j :: 0 <= j < |admins| ==> admins[j].email != email
    ensures r.Some? ==> r.value in admins && r.value.email == email
  {
    if admins == [] then None
    else if admins[0].email == email then Some(admins[0])
    else FindByEmail(admins[1..], email)
  }

  /** The reply of `/request-verification` with the address the code went to. */
  datatype SentReply = SentReply(reply: Reply, sentTo: Option<string>)

  /** Where a verification code is mailed: the new address for an e-mail change, the current one otherwise. */
  function Recipient(user: Admin, kind: Option<string>, newEmail: Option<string>): Option<string> {
    if kind == Some("email") then newEmail else user.email
  }

  /** The collections of the `quiz` database these routes read and write. */
  class AccountStore {
    var admins: seq<Admin>
    var codes: seq<VerificationCode>
    var resets: seq<ResetToken>

    constructor (admins: seq<Admin>)
      ensures this.admins == admins && codes == [] && resets == []
    {
      this.admins := admins;
      codes := [];
      resets := [];
    }

    /** PUT `/profile`: the authenticated administrator's truthy fields are overwritten. */
    method UpdateProfile(user: Admin, username: Option<string>, email: Option<string>, password: Option<string>,
                         hash: string -> string) returns (r: Reply)
      modifies this
      ensures admins == Patched(old(admins), user.id, ProfilePatch(username, email, password, hash))
      ensures codes == old(codes) && resets == old(resets)
      ensures r == Reply(200, "Profile updated successfully")
    {
      var updateData := Patch(None, None, None);
      if Truthy(username) {
        updateData := updateData.(username := username);
      }
      if Truthy(email) {
        updateData := updateData.(email := Some(email));
      }
      if Truthy(password) {
        var hashedPassword := hash(password.value);
        updateData := updateData.(passwordHash := Some(hashedPassword));
      }
      admins := Patched(admins, user.id, updateData);
      r := Reply(200, "Profile updated successfully");
    }

    /**
      POST `/request-verification`: an e-mail change needs a truthy `newEmail` (400 otherwise);
      then a six-digit code drawn from [100000, 999999) is stored for 15 minutes and mailed
      (`mailSent` is whether the mail went out; a failure answers 500 after the insert).
    */
    method RequestVerification(user: Admin, kind: Option<string>, newEmail: Option<string>,
                               draw: nat, now: int, mailSent: bool) returns (r: SentReply)
      requires 100000 <= draw < 999999
      modifies this
      ensures admins == old(admins) && resets == old(resets)
      ensures kind == Some("email") && !Truthy(newEmail) ==>
                r == SentReply(Reply(400, "New email is required"), None) && codes == old(codes)
      ensures !(kind == Some("email") && !Truthy(newEmail)) ==>
                && codes == old(codes) + [VerificationCode(user.id, kind, ToDecimal(draw), now + CodeWindow,
                                                           if kind == Some("email") then newEmail else None)]
                && r == (if mailSent then SentReply(Reply(200, "Verification code sent"), Recipient(user, kind, newEmail))
                         else SentReply(Reply(500, "Failed to send verification code"), None))
    {
      if kind == Some("email") && !Truthy(newEmail) {
        return SentReply(Reply(400, "New email is required"), None);
      }
      var code := ToDecimal(draw);
      var expiresAt := now + CodeWindow;
      codes := codes + [VerificationCode(user.id, kind, code, expiresAt, if kind == Some("email") then newEmail else None)];
      var recipientEmail := Recipient(user, kind, newEmail);
      if !mailSent {
        return SentReply(Reply(500, "Failed to send verification code"), None);
      }
      r := SentReply(Reply(200, "Verification code sent"), recipientEmail);
    }

    /**
      POST `/verify-update`: the first unexpired code record of this user, type and code is
      consumed (400 when there is none). A password change stores the hash of `newPassword`
      (hashing a missing password throws: 500, nothing changed); an e-mail change stores the
      request's `newEmail`, not the address stored with the code; any other type changes no field. The reply names "Password" for a
      password change and "Email" for everything else.
    */
    method VerifyUpdate(user: Admin, code: Option<string>, kind: Option<string>,
                        newPassword: Option<string>, newEmail: Option<string>,
                        hash: string -> string, now: int) returns (r: Reply)
      modifies this
      ensures resets == old(resets)
      ensures FindCode(old(codes), user.id, kind, code, now, 0).None? ==>
                r == Reply(400, "Invalid or expired code") && admins == old(admins) && codes == old(codes)
      ensures FindCode(old(codes), user.id, kind, code, now, 0).Some? && kind == Some("password") && newPassword.None? ==>
                r == Reply(500, "Failed to verify and update") && admins == old(admins) && codes == old(codes)
      ensures FindCode(old(codes), user.id, kind, code, now, 0).Some? && !(kind == Some("password") && newPassword.None?) ==>
                var k := FindCode(old(codes), user.id, kind, code, now, 0).value;
                && codes == old(codes)[..k] + old(codes)[k + 1..]
                && admins == (if kind == Some("password") then Patched(old(admins), user.id, Patch(None, None, Some(hash(newPassword.value))))
                              else if kind == Some("email") then Patched(old(admins), user.id, Patch(None, Some(newEmail), None))
                              else old(admins))
                && r == Reply(200, if kind == Some("password") then "Password updated successfully" else "Email updated successfully")
    {
      var verification := FindCode(codes, user.id, kind, code, now, 0);
      if verification.None? {
        return Reply(400, "Invalid or expired code");
      }
      if kind == Some("password") {
        if newPassword.None? {
          return Reply(500, "Failed to verify and update");
        }
        var hashedPassword := hash(newPassword.value);
        admins := Patched(admins, user.id, Patch(None, None, Some(hashedPassword)));
      } else if kind == Some("email") {
        admins := Patched(admins, user.id, Patch(None, Some(newEmail), None));
      }
      var k := verification.value;
      codes := codes[..k] + codes[k + 1..];
      r := Reply(200, if kind == Some("password") then "Password updated successfully" else "Email updated successfully");
    }

    /**
      POST `/forgot-password`: 404 for an address no administrator has (a missing address looks
      for an administrator without one); otherwise a reset token
      valid for 30 minutes is stored and the link mailed (a mail failure answers 500 after the insert).
    */
    method ForgotPassword(email: Option<string>, token: string, now: int, mailSent: bool) returns (r: Reply)
      requires |token| == 64 && forall k :: 0 <= k < |token| ==> IsHexDigit(token[k])
      modifies this
      ensures admins == old(admins) && codes == old(codes)
      ensures FindByEmail(old(admins), email).None? ==>
                r == Reply(404, "No account found with this email") && resets == old(resets)
      ensures FindByEmail(old(admins), email).Some? ==>
                && resets == old(resets) + [ResetToken(FindByEmail(old(admins), email).value.id, token, now + ResetWindow)]
                && r == (if mailSent then Reply(200, "Password reset link sent to your email")
                         else Reply(500, "Failed to process request"))
    {
      var superAdmin := FindByEmail(admins, email);
      if superAdmin.None? {
        return Reply(404, "No account found with this email");
      }
      var resetTokenExpiry := now + ResetWindow;
      resets := resets + [ResetToken(superAdmin.value.id, token, resetTokenExpiry)];
      if !mailSent {
        return Reply(500, "Failed to process request");
      }
      r := Reply(200, "Password reset link sent to your email");
    }

    /**
      POST `/reset-password`: the first unexpired record with the token is consumed and its
      administrator's password replaced by the hash of `newPassword`; 400 without such a record,
      500 (nothing changed) when `newPassword` is missing and hashing throws.
    */
    method ResetPassword(token: Option<string>, newPassword: Option<string>, hash: string -> string, now: int)
      returns (r: Reply)
      modifies this
      ensures codes == old(codes)
      ensures FindReset(old(resets), token, now, 0).None? ==>
                r == Reply(400, "Invalid or expired reset token") && admins == old(admins) && resets == old(resets)
      ensures FindReset(old(resets), token, now, 0).Some? && newPassword.None? ==>
                r == Reply(500, "Failed to reset password") && admins == old(admins) && resets == old(resets)
      ensures FindReset(old(resets), token, now, 0).Some? && newPassword.Some? ==>
                var k := FindReset(old(resets), token, now, 0).value;
                && resets == old(resets)[..k] + old(resets)[k + 1..]
                && admins == Patched(old(admins), old(resets)[k].userId, Patch(None, None, Some(hash(newPassword.value))))
                && r == Reply(200, "Password reset successful")
    {
      var resetRequest := FindReset(resets, token, now, 0);
      if resetRequest.None? {
        return Reply(400, "Invalid or expired reset token");
      }
      if newPassword.None? {
        return Reply(500, "Failed to reset password");
      }
      var k := resetRequest.value;
      var hashedPassword := hash(newPassword.value);
      admins := Patched(admins, resets[k].userId, Patch(None, None, Some(hashedPassword)));
      resets := resets[..k] + resets[k + 1..];
      r := Reply(200, "Password reset successful");
    }
  }

  /** The issued code is the six-digit decimal rendering of the draw, which reads back as the draw. */
  lemma CodeIsSixDigits(draw: nat)
    requires 100000 <= draw < 999999
    ensures |ToDecimal(draw)| == 6
    ensures forall k :: 0 <= k < 6 ==> IsDigit(ToDecimal(draw)[k])
    ensures DecimalValue(ToDecimal(draw)) == draw
  {
    assert Pow10(5) == 100000 && Pow10(6) == 1000000;
    DecimalLength(draw, 6);
    DecimalRoundTrip(draw);
  }

  /**
    A code just issued is accepted by `verify-update` exactly while its 15 minutes have not run
    out, provided no older record carries the same user, type and code.
  */
  lemma IssuedCodeWindow(codes: seq<VerificationCode>, issued: VerificationCode, issuedAt: int, t: int)
    requires issued.expiresAt == issuedAt + CodeWindow
    requires forall j :: 0 <= j < |codes| ==>
               !(codes[j].userId == issued.userId && codes[j].kind == issued.kind && codes[j].code == issued.code)
    ensures FindCode(codes + [issued], issued.userId, issued.kind, Some(issued.code), t, 0) ==
            (if t < issuedAt + 900000 then Some(|codes|) else None)
  {
    var all := codes + [issued];
    assert forall j :: 0 <= j < |codes| ==> all[j] == codes[j];
    assert all[|codes|] == issued;
  }

  /**
    A consumed code cannot be used again: once the record found is removed, the lookup finds
    nothing at any later time, provided it was the only record with that user, type and code.
  */
  lemma CodeUsedOnce(codes: seq<VerificationCode>, userId: string, kind: Option<string>, code: string,
                     now: int, later: int)
    requires FindCode(codes, userId, kind, Some(code), now, 0).Some?
    requires forall i, j :: 0 <= i < j < |codes| ==>
               !(codes[i].userId == userId && codes[i].kind == kind && codes[i].code == code
                 && codes[j].userId == userId && codes[j].kind == kind && codes[j].code == code)
    ensures var k := FindCode(codes, userId, kind, Some(code), now, 0).value;
            FindCode(codes[..k] + codes[k + 1..], userId, kind, Some(code), later, 0).None?
  {
    var k := FindCode(codes, userId, kind, Some(code), now, 0).value;
    var rest := codes[..k] + codes[k + 1..];
    forall j | 0 <= j < |rest| ensures !CodeMatches(rest[j], userId, kind, Some(code), later) {
      if j < k {
        assert rest[j] == codes[j];
      } else {
        assert rest[j] == codes[j + 1];
      }
    }
  }

  /** A reset token is accepted exactly while its 30 minutes have not run out, when it is the only record with that token. */
  lemma ResetTokenWindow(resets: seq<ResetToken>, issued: ResetToken, issuedAt: int, t: int)
    requires issued.expiresAt == issuedAt + ResetWindow
    requires forall j :: 0 <= j < |resets| ==> resets[j].token != issued.token
    ensures FindReset(resets + [issued], Some(issued.token), t, 0) ==
            (if t < issuedAt + 1800000 then Some(|resets|) else None)
  {
    var all := resets + [issued];
    assert forall j :: 0 <= j < |resets| ==> all[j] == resets[j];
    assert all[|resets|] == issued;
  }

  /** A consumed reset token cannot be used again when no other record carries it. */
  lemma ResetTokenUsedOnce(resets: seq<ResetToken>, token: string, now: int, later: int)
    requires FindReset(resets, Some(token), now, 0).Some?
    requires forall i, j :: 0 <= i < j < |resets| ==> !(resets[i].token == token && resets[j].token == token)
    ensures var k := FindReset(resets, Some(token), now, 0).value;
            FindReset(resets[..k] + resets[k + 1..], Some(token), later, 0).None?
  {
    var k := FindReset(resets, Some(token), now, 0).value;
    var rest := resets[..k] + resets[k + 1..];
    forall j | 0 <= j < |rest| ensures !(Some(token) == Some(rest[j].token) && rest[j].expiresAt > later) {
      if j < k {
        assert rest[j] == resets[j];
      } else {
        assert rest[j] == resets[j + 1];
      }
    }
  }
}
