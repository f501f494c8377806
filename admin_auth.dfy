/** The admin gate that guards every admin scheduling route. */
module AdminAuth {

  /** The looked-up `users` row: role and account status. */
  datatype Account = Account(role: string, status: string)

  /** What the request gets: passed on to the route, or refused with an HTTP code and message. */
  datatype Verdict = Allow | Deny(code: int, message: string)

  /** The gate's decision for the `x-user-id` header (empty when absent), the users table,
      and whether the lookup query failed. */
  function Decide(header: string, users: map<string, Account>, queryFailed: bool): (v: Verdict)
    ensures v == Allow <==>
              header != "" && !queryFailed && header in users
              && users[header].status == "active" && users[header].role == "admin"
    ensures v.Deny? ==> v.code in {401, 403}
  {
    if header == "" then Deny(401, "Missing user ID")
    else if queryFailed || header !in users then Deny(401, "Invalid user")
    else if users[header].status != "active" then Deny(403, "Account disabled")
    else if users[header].role != "admin" then Deny(403, "Admin access only")
    else Allow
  }

  /** The refusals, in the order they are checked: a missing header, then an unknown user
      or failed lookup, then a disabled account (even an admin's), then a non-admin role. */
  lemma DenialOrder(header: string, users: map<string, Account>, queryFailed: bool)
    ensures header == "" ==> Decide(header, users, queryFailed) == Deny(401, "Missing user ID")
    ensures header != "" && (queryFailed || header !in users) ==>
              Decide(header, users, queryFailed) == Deny(401, "Invalid user")
    ensures header != "" && !queryFailed && header in users && users[header].status != "active" ==>
              Decide(header, users, queryFailed) == Deny(403, "Account disabled")
    ensures header != "" && !queryFailed && header in users && users[header].status == "active"
              && users[header].role != "admin" ==>
              Decide(header, users, queryFailed) == Deny(403, "Admin access only")
  {
  }

  /** A disabled admin is refused as disabled, not let through on the role. */
  lemma DisabledAdminRefused(header: string, users: map<string, Account>)
    requires header != "" && header in users
    requires users[header].role == "admin" && users[header].status != "active"
    ensures Decide(header, users, false) == Deny(403, "Account disabled")
  {
  }
}
