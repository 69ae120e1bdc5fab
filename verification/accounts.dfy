/** The credential records and the `auth` decision. The records map a user name to
    the MD5 digest of the password; MD5 is the function parameter `hash`. */
module Accounts {
  import opened Bytes

  /** Database.records: user name to stored digest bytes. */
  type Records = map<string, seq<byte>>

  /** The three messages of `auth`. */
  datatype AuthOutcome = Authenticated | BadPassword | NoSuchUser

  /** `auth <username> <password>`: look the user up and compare the stored digest
      with the digest of the entered password. */
  function Auth(records: Records, user: string, password: seq<byte>, hash: seq<byte> -> Digest)
    : (r: AuthOutcome)
    ensures r == Authenticated <==> user in records && records[user] == hash(password)
    ensures r == BadPassword <==> user in records && records[user] != hash(password)
    ensures r == NoSuchUser <==> user !in records
  {
    if user in records then
      if records[user] == hash(password) then Authenticated else BadPassword
    else NoSuchUser
  }

  /** `add-user <username> <password>`: insert or overwrite the user's digest. */
  function AddUser(records: Records, user: string, password: seq<byte>, hash: seq<byte> -> Digest)
    : (r: Records)
    ensures r.Keys == records.Keys + {user}
    ensures r[user] == hash(password)
    ensures forall v :: v in records && v != user ==> r[v] == records[v]
  {
    records[user := hash(password)]
  }

  /** After add-user, the user authenticates with exactly the passwords whose digest
      equals the new password's, and every other user's outcome is unchanged. */
  lemma AuthAfterAddUser(records: Records, user: string, password: seq<byte>,
                         other: string, attempt: seq<byte>, hash: seq<byte> -> Digest)
    ensures Auth(AddUser(records, user, password, hash), user, password, hash) == Authenticated
    ensures Auth(AddUser(records, user, password, hash), user, attempt, hash) == Authenticated
        <==> hash(attempt) == hash(password)
    ensures other != user ==>
      Auth(AddUser(records, user, password, hash), other, attempt, hash) == Auth(records, other, attempt, hash)
  {
  }
}
