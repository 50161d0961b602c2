/** The business tables behind the authorization ledger. Each table is a map keyed by its
    PRIMARY KEY or UNIQUE constraint (sgx-enclave/src/database/schema.js). Times are numbers of
    milliseconds; the bookkeeping columns created_at, updated_at and _hlc are not kept. */
module Tables {

  datatype Option<+T> = None | Some(value: T)

  /** SQL's COALESCE. */
  function Coalesce<T>(a: Option<T>, b: Option<T>): Option<T> {
    if a.Some? then a else b
  }

  /** (user_id, authorization_id) */
  datatype Key = Key(user: string, auth: string)

  /** (authorization_id, chain_id, token_address); the chain id is kept as its decimal text. */
  datatype TokenKey = TokenKey(auth: string, chain: string, token: string)

  /** (authorization_id, guid) */
  datatype Nonce = Nonce(auth: string, guid: string)

  datatype Status = Active | Revoked | Expired | Exceeded

  /** What has been spent: an amount in Wei and a number of signatures. */
  datatype Usage = Usage(amount: int, count: int) {
    function Plus(other: Usage): Usage {
      Usage(amount + other.amount, count + other.count)
    }
  }

  const UNUSED := Usage(0, 0)

  datatype State = State(grantee: string, status: Status, used: Usage)

  datatype Source = Platform | Contract

  datatype Revocation = Revocation(
    grantee: Option<string>,
    source: Source,
    revokedAt: int,
    expiresAt: Option<int>,
    hash: Option<string>)

  /** A stored authorization text: its deadline and the hash of its JSON. */
  datatype AuthRecord = AuthRecord(deadline: Option<int>, hash: string)

  datatype Db = Db(
    accounts: set<string>,
    states: map<Key, State>,
    tokens: map<TokenKey, Usage>,
    nonces: set<Nonce>,
    records: map<Key, AuthRecord>,
    revocations: map<Key, Revocation>)

  const EMPTY_DB := Db({}, map[], map[], {}, map[], map[])
}
