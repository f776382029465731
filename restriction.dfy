/**
  The `restrictedEmails` collection: the registry of e-mail addresses that are served the
  administrator-chosen daily quiz instead of a random sample.
*/
module Restriction {
  import opened Records

  /** No address is stored twice. */
  predicate NoDuplicates(s: seq<string>) {
    forall i, j :: 0 <= i < j < |s| ==> s[i] != s[j]
  }

  /** `deleteOne({ email })`: the list without the first document holding `email`. */
  function RemoveFirst(s: seq<string>, email: string): (r: seq<string>)
    ensures email in s ==> |r| == |s| - 1
    ensures email !in s ==> r == s
    ensures multiset(r) == multiset(s) - multiset{email}
  {
    if s == [] then []
    else if s[0] == email then
      assert s == [s[0]] + s[1..];
      s[1..]
    else
      assert s == [s[0]] + s[1..];
      [s[0]] + RemoveFirst(s[1..], email)
  }

  /**
    On a registry without duplicates, deleting an address removes it entirely, keeps every
    other address, and keeps the registry free of duplicates.
  */
  lemma {:induction false} RemoveFirstFromUnique(s: seq<string>, email: string)
    requires NoDuplicates(s)
    ensures email !in RemoveFirst(s, email)
    ensures forall e :: e != email ==> (e in RemoveFirst(s, email) <==> e in s)
    ensures NoDuplicates(RemoveFirst(s, email))
  {
    if s != [] {
      UniqueTail(s);
      if s[0] != email {
        var tail := RemoveFirst(s[1..], email);
        RemoveFirstFromUnique(s[1..], email);
        assert s[0] !in tail;
        assert RemoveFirst(s, email) == [s[0]] + tail;
      }
    }
  }

  /** Without duplicates, the head is absent from the tail, which has no duplicates either. */
  lemma UniqueTail(s: seq<string>)
    requires s != [] && NoDuplicates(s)
    ensures s[0] !in s[1..] && NoDuplicates(s[1..])
  {
    forall i, j | 0 <= i < j < |s| - 1 ensures s[1..][i] != s[1..][j] {
      assert s[1..][i] == s[i + 1] && s[1..][j] == s[j + 1];
    }
  }

  /** The `restrictedEmails` collection, as the list of its addresses in insertion order. */
  class RestrictedEmails {
    var emails: seq<string>

    /** The registry never holds an address twice. */
    ghost predicate Valid()
      reads this
    {
      NoDuplicates(emails)
    }

    constructor ()
      ensures Valid() && emails == []
    {
      emails := [];
    }

    /**
      POST `/restricted-emails`: 400 for a missing or empty address, 400 when it is already
      restricted, otherwise the address is appended and 201 is answered.
    */
    method Add(email: Option<string>) returns (r: Reply)
      requires Valid()
      modifies this
      ensures Valid()
      ensures !Truthy(email) ==> r == Reply(400, "Email is required") && emails == old(emails)
      ensures Truthy(email) && email.value in old(emails) ==>
                r == Reply(400, "Email already restricted") && emails == old(emails)
      ensures Truthy(email) && email.value !in old(emails) ==>
                r == Reply(201, "Email added successfully") && emails == old(emails) + [email.value]
    {
      if !Truthy(email) {
        return Reply(400, "Email is required");
      }
      var address := email.value;
      if address in emails {
        return Reply(400, "Email already restricted");
      }
      emails := emails + [address];
      r := Reply(201, "Email added successfully");
    }

    /** GET `/restricted-emails`: the stored addresses, as plain strings. */
    method List() returns (r: seq<string>)
      ensures r == emails
    {
      r := emails;
    }

    /**
      DELETE `/restricted-emails/:email`: 400 for an empty parameter, 404 when no document
      holds the address, otherwise that document is removed and 200 is answered.
    */
    method Delete(email: string) returns (r: Reply)
      requires Valid()
      modifies this
      ensures Valid()
      ensures email == "" ==> r == Reply(400, "Email is required") && emails == old(emails)
      ensures email != "" && email !in old(emails) ==> r == Reply(404, "Email not found") && emails == old(emails)
      ensures email != "" && email in old(emails) ==>
                r == Reply(200, "Email removed successfully") && emails == RemoveFirst(old(emails), email)
      ensures email != "" ==> email !in emails
    {
      if email == "" {
        return Reply(400, "Email is required");
      }
      var before := |emails|;
      RemoveFirstFromUnique(emails, email);
      emails := RemoveFirst(emails, email);
      if |emails| == before {
        return Reply(404, "Email not found");
      }
      r := Reply(200, "Email removed successfully");
    }
  }

  /** Whether `email` is in the registry (`findOne({ email })` in the quiz-content route). */
  function IsRestricted(emails: seq<string>, email: string): (b: bool)
    ensures b <==> exists k :: 0 <= k < |emails| && emails[k] == email
  {
    email in emails
  }
}
