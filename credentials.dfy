/** The UI's in-memory credential cache: a stored password, whether it has been validated,
    and at most one pending request for credentials. */
module Credentials {
  import opened Wrappers
  import opened Text

  /** The cache. A pending request is identified by a number; `requested` logs the reason of
      every `CredentialRequested` notification raised and `completed` every result handed to a
      pending request, both in order. */
  class CredentialManager {
    var storedPassword: Option<string>
    var isValidated: bool
    var pendingRequest: Option<nat>
    var nextRequest: nat
    var requested: seq<string>
    var completed: seq<(nat, bool)>

    /** Request numbers are handed out in increasing order, so a pending one is always older
        than the next. */
    predicate Valid()
      reads this
    {
      pendingRequest.Some? ==> pendingRequest.value < nextRequest
    }

    constructor ()
      ensures Valid()
      ensures storedPassword == None && !isValidated && pendingRequest == None
      ensures requested == [] && completed == []
    {
      storedPassword := None;
      isValidated := false;
      pendingRequest := None;
      nextRequest := 0;
      requested := [];
      completed := [];
    }

    /** True exactly when a non-empty password is stored. */
    predicate HasStoredCredentials()
      reads this
    {
      !IsNullOrEmpty(storedPassword)
    }

    predicate IsValidated()
      reads this
    {
      isValidated
    }

    function GetPassword(): (r: Option<string>)
      reads this
    {
      storedPassword
    }

    method StorePassword(password: string)
      requires Valid()
      modifies this
      ensures Valid()
      ensures storedPassword == Some(password) && !isValidated
      ensures pendingRequest == old(pendingRequest) && nextRequest == old(nextRequest)
      ensures requested == old(requested) && completed == old(completed)
      ensures GetPassword() == Some(password)
      ensures HasStoredCredentials() <==> password != []
    {
      storedPassword := Some(password);
      isValidated := false;
    }

    /** The password is dropped (after being overwritten with NULs) and the flag cleared. */
    method ClearCredentials()
      requires Valid()
      modifies this
      ensures Valid()
      ensures storedPassword == None && !isValidated
      ensures pendingRequest == old(pendingRequest) && nextRequest == old(nextRequest)
      ensures requested == old(requested) && completed == old(completed)
      ensures !HasStoredCredentials()
    {
      if storedPassword.Some? {
        storedPassword := Some(seq(|storedPassword.value|, _ => '\0'));
      }
      storedPassword := None;
      isValidated := false;
    }

    method MarkAsValidated()
      requires Valid()
      modifies this
      ensures Valid()
      ensures isValidated
      ensures storedPassword == old(storedPassword) && pendingRequest == old(pendingRequest)
      ensures nextRequest == old(nextRequest)
      ensures requested == old(requested) && completed == old(completed)
    {
      isValidated := true;
    }

    method MarkAsInvalid()
      requires Valid()
      modifies this
      ensures Valid()
      ensures storedPassword == None && !isValidated
      ensures pendingRequest == old(pendingRequest) && nextRequest == old(nextRequest)
      ensures requested == old(requested) && completed == old(completed)
      ensures !HasStoredCredentials()
    {
      isValidated := false;
      if storedPassword.Some? {
        storedPassword := Some(seq(|storedPassword.value|, _ => '\0'));
      }
      storedPassword := None;
    }

    /** Returns `immediate == true` without any notification when validated credentials are
        stored; otherwise replaces the pending request by a fresh one and raises
        `CredentialRequested` with `reason` (the awaited answer is not modelled). */
    method RequestCredentials(reason: string) returns (immediate: bool)
      requires Valid()
      modifies this
      ensures Valid()
      ensures immediate <==> old(HasStoredCredentials()) && old(isValidated)
      ensures immediate ==> pendingRequest == old(pendingRequest) && requested == old(requested)
      ensures !immediate ==> pendingRequest == Some(old(nextRequest)) && requested == old(requested) + [reason]
      ensures !immediate ==> old(pendingRequest).None? || old(pendingRequest).value != old(nextRequest)
      ensures storedPassword == old(storedPassword) && isValidated == old(isValidated)
      ensures completed == old(completed)
      ensures nextRequest >= old(nextRequest)
    {
      if HasStoredCredentials() && isValidated {
        return true;
      }
      pendingRequest := Some(nextRequest);
      nextRequest := nextRequest + 1;
      requested := requested + [reason];
      return false;
    }

    /** Hands `success` to the pending request, if any, and clears it. */
    method CompleteCredentialRequest(success: bool)
      requires Valid()
      modifies this
      ensures Valid()
      ensures pendingRequest == None
      ensures completed == old(completed) + (if old(pendingRequest).Some? then [(old(pendingRequest).value, success)] else [])
      ensures storedPassword == old(storedPassword) && isValidated == old(isValidated)
      ensures nextRequest == old(nextRequest) && requested == old(requested)
    {
      var tcs := pendingRequest;
      pendingRequest := None;
      if tcs.Some? {
        completed := completed + [(tcs.value, success)];
      }
    }
  }
}
